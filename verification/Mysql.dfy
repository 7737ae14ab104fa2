/** Text result sets of the MySQL client/server protocol: the encoder of
    `services/mysql/protocol.py`, and a client that reads what it sends. */
module Mysql {
  import opened Text

  type byte = b: int | 0 <= b < 256
  type Bytes = seq<byte>

  // Framing

  const FRAME_LIMIT: nat := 0x100_0000

  function Frame(payload: Bytes, id: nat): Bytes {
    var n := |payload|;
    [n % 256, n / 256 % 256, n / 65536 % 256, id % 256] + payload
  }

  /** The first three bytes of a packet, least significant first. */
  function HeaderLength(stream: Bytes): nat
    requires |stream| >= 3
  {
    (stream[0] as int) + 256 * (stream[1] as int) + 65536 * (stream[2] as int)
  }

  datatype Packet = Packet(id: nat, payload: Bytes, rest: Bytes)

  /** `read_packet`; none when the stream ends too early. */
  function ReadPacket(stream: Bytes): (r: Option<Packet>)
    ensures r.Some? ==> |r.value.payload| + |r.value.rest| + 4 == |stream|
  {
    if |stream| < 4 then None
    else
      var length := HeaderLength(stream);
      if |stream| < 4 + length then None
      else Some(Packet(stream[3], stream[4..4 + length], stream[4 + length..]))
  }

  lemma HighBytes(n: nat)
    ensures n / 65536 == n / 256 / 256
  {
    var a := n / 256;
    var low := 256 * (a % 256) + n % 256;
    assert n == 256 * a + n % 256 && a == 256 * (a / 256) + a % 256;
    assert n == 65536 * (a / 256) + low && 0 <= low < 65536;
  }

  lemma ThreeBytes(n: nat)
    ensures n % 256 + 256 * (n / 256 % 256) + 65536 * (n / 65536 % 256) == n % FRAME_LIMIT
  {
    HighBytes(n);
    var a := n / 256;
    var b := a / 256;
    var low := n % 256 + 256 * (a % 256) + 65536 * (b % 256);
    var c := b / 256;
    assert n == 256 * a + n % 256 && a == 256 * b + a % 256 && b == 256 * c + b % 256;
    RemainderIs(n, c, low);
  }

  lemma RemainderIs(n: nat, c: nat, low: nat)
    requires n == FRAME_LIMIT * c + low && low < FRAME_LIMIT
    ensures n % FRAME_LIMIT == low
  {
  }

  lemma HeaderKeeps24Bits(payload: Bytes, id: nat, rest: Bytes)
    ensures HeaderLength(Frame(payload, id) + rest) == |payload| % FRAME_LIMIT
    ensures |payload| < FRAME_LIMIT <==> |payload| % FRAME_LIMIT == |payload|
  {
    ThreeBytes(|payload|);
  }

  /** A frame reads back as it was written exactly when its payload is shorter than 2^24 bytes: the
      header keeps only 24 bits of the length. */
  lemma FrameReadsBack(payload: Bytes, id: nat, rest: Bytes)
    ensures ReadPacket(Frame(payload, id) + rest) == Some(Packet(id % 256, payload, rest)) <==> |payload| < FRAME_LIMIT
  {
    hide HeaderLength;
    HeaderKeeps24Bits(payload, id, rest);
    var n := |payload|;
    var stream := Frame(payload, id) + rest;
    var length := HeaderLength(stream);
    assert |stream| == 4 + n + |rest|;
    if length == n {
      assert stream[4..4 + n] == payload && stream[4 + n..] == rest;
    } else {
      assert length <= n && |stream[4..4 + length]| == length;
    }
  }

  // Length-encoded values

  function LittleEndian(n: nat, width: nat): (bs: Bytes)
    ensures |bs| == width
  {
    if width == 0 then [] else [n % 256] + LittleEndian(n / 256, width - 1)
  }

  function Value(bs: Bytes): nat {
    if bs == [] then 0 else bs[0] + 256 * Value(bs[1..])
  }

  function Pow256(k: nat): nat {
    if k == 0 then 1 else 256 * Pow256(k - 1)
  }

  lemma {:induction false} ValueOfLittleEndian(n: nat, width: nat)
    requires n < Pow256(width)
    ensures Value(LittleEndian(n, width)) == n
  {
    if width > 0 {
      ValueOfLittleEndian(n / 256, width - 1);
      assert LittleEndian(n, width)[1..] == LittleEndian(n / 256, width - 1);
    }
  }

  /** Lengths of Python objects stay below 2^63, so the eight-byte form never overflows. */
  function LenencInt(n: nat): (bs: Bytes)
    ensures bs != []
  {
    if n < 0xFB then [n]
    else if n <= 0xFFFF then [0xFC] + LittleEndian(n, 2)
    else if n <= 0xFF_FFFF then [0xFD] + LittleEndian(n, 3)
    else [0xFE] + LittleEndian(n, 8)
  }

  function LenencStr(s: Bytes): Bytes {
    LenencInt(|s|) + s
  }

  /** Protocol::LengthEncodedInteger. 0xFB and 0xFF do not start one. */
  function DecodeInt(bs: Bytes): (r: Option<(nat, Bytes)>)
    ensures r.Some? ==> |r.value.1| < |bs|
  {
    if bs == [] then None
    else if bs[0] < 0xFB then Some((bs[0], bs[1..]))
    else if bs[0] == 0xFC && |bs| >= 3 then Some((Value(bs[1..3]), bs[3..]))
    else if bs[0] == 0xFD && |bs| >= 4 then Some((Value(bs[1..4]), bs[4..]))
    else if bs[0] == 0xFE && |bs| >= 9 then Some((Value(bs[1..9]), bs[9..]))
    else None
  }

  function DecodeStr(bs: Bytes): (r: Option<(Bytes, Bytes)>)
    ensures r.Some? ==> |r.value.1| < |bs|
  {
    var n := DecodeInt(bs);
    if n.None? || |n.value.1| < n.value.0 then None
    else Some((n.value.1[..n.value.0], n.value.1[n.value.0..]))
  }

  /** Integers survive, whatever follows them, and their first byte says what they are: never the mark
      of a NULL or an error, and that of an EOF only from 2^24 on. */
  lemma IntReadsBack(n: nat, rest: Bytes)
    requires n < 0x1_0000_0000_0000_0000
    ensures DecodeInt(LenencInt(n) + rest) == Some((n, rest))
    ensures LenencInt(n)[0] != 0xFB && LenencInt(n)[0] != 0xFF
    ensures LenencInt(n)[0] == 0xFE <==> n >= FRAME_LIMIT
  {
    var bs := LenencInt(n);
    var all := bs + rest;
    var width := |bs| - 1;
    assert all[1..1 + width] == bs[1..] && all[1 + width..] == rest;
    PowersOf256();
    if n >= 0xFB {
      ValueOfLittleEndian(n, width);
      assert bs[1..] == LittleEndian(n, width);
    }
  }

  lemma PowersOf256()
    ensures Pow256(2) == 0x1_0000 && Pow256(3) == FRAME_LIMIT && Pow256(8) == 0x1_0000_0000_0000_0000
  {
    assert Pow256(4) == 256 * Pow256(3);
    assert Pow256(6) == 256 * (256 * Pow256(4));
    assert Pow256(8) == 256 * (256 * Pow256(6));
  }

  lemma StrReadsBack(s: Bytes, rest: Bytes)
    requires |s| < 0x1_0000_0000_0000_0000
    ensures DecodeStr(LenencStr(s) + rest) == Some((s, rest))
  {
    hide DecodeInt, LenencInt;
    IntReadsBack(|s|, s + rest);
    assert LenencStr(s) + rest == LenencInt(|s|) + (s + rest);
    assert (s + rest)[..|s|] == s && (s + rest)[|s|..] == rest;
  }

  // Result sets

  const EOF_PACKET: Bytes := [0xFE, 0, 0, 2, 0]

  /** Charset, column length, type, flags, decimals and filler, with the length of them all in front. */
  const COLUMN_TAIL: Bytes := [0x0C, 0x21, 0, 0, 1, 0, 0, 0xFD, 0, 0, 0, 0, 0]

  const DEF: Bytes := [0x64, 0x65, 0x66]

  function ColumnDef(name: Bytes): Bytes {
    LenencStr(DEF)
    + (LenencStr([]) + (LenencStr([]) + (LenencStr([]) + (LenencStr(name) + (LenencStr([]) + COLUMN_TAIL)))))
  }

  type Row = seq<Option<Bytes>>

  /** A missing value is sent as an empty string, not as NULL. */
  function RowPacket(row: Row): Bytes {
    if row == [] then [] else LenencStr(row[0].GetOr([])) + RowPacket(row[1..])
  }

  function ColumnPackets(columns: seq<Bytes>): (ps: seq<Bytes>)
    ensures |ps| == |columns|
  {
    if columns == [] then [] else [ColumnDef(columns[0])] + ColumnPackets(columns[1..])
  }

  function RowPackets(rows: seq<Row>): (ps: seq<Bytes>)
    ensures |ps| == |rows|
  {
    if rows == [] then [] else [RowPacket(rows[0])] + RowPackets(rows[1..])
  }

  /** `build_result_set` */
  function ResultSet(columns: seq<Bytes>, rows: seq<Row>): seq<Bytes> {
    [LenencInt(|columns|)] + (ColumnPackets(columns) + ([EOF_PACKET] + (RowPackets(rows) + [EOF_PACKET])))
  }

  // The bytes themselves

  /** Least significant byte first, in the header of a packet and in integers. */
  lemma BytesOfLengths(payload: Bytes, id: nat, n: nat)
    ensures |payload| < 0x100_0000 ==> var f := Frame(payload, id);
      (f[0] as int) + 256 * (f[1] as int) + 65536 * (f[2] as int) == |payload| && f[3] == id % 256 && f[4..] == payload
    ensures n <= 250 ==> LenencInt(n) == [n]
    ensures 251 <= n <= 0xFFFF ==> LenencInt(n) == [0xFC, n % 256, n / 256]
    ensures 0x1_0000 <= n <= 0xFF_FFFF ==> LenencInt(n) == [0xFD, n % 256, n / 256 % 256, n / 65536]
    ensures n == 0x100_0000 ==> LenencInt(n) == [0xFE, 0, 0, 0, 1, 0, 0, 0, 0]
  {
    hide LenencInt;
    HeaderKeeps24Bits(payload, id, []);
    assert Frame(payload, id) + [] == Frame(payload, id);
    ShortIntegers(n);
  }

  lemma ShortIntegers(n: nat)
    ensures n <= 250 ==> LenencInt(n) == [n]
    ensures 251 <= n <= 0xFFFF ==> LenencInt(n) == [0xFC, n % 256, n / 256]
    ensures 0x1_0000 <= n <= 0xFF_FFFF ==> LenencInt(n) == [0xFD, n % 256, n / 256 % 256, n / 65536]
    ensures n == 0x100_0000 ==> LenencInt(n) == [0xFE, 0, 0, 0, 1, 0, 0, 0, 0]
  {
    HighBytes(n);
    if n <= 0xFFFF {
      TwoBytes(n);
    } else if n <= 0xFF_FFFF {
      TwoBytes(n / 256);
      assert LittleEndian(n, 3) == [n % 256] + LittleEndian(n / 256, 2);
    } else if n == 0x100_0000 {
      assert LittleEndian(1, 5) == [1, 0, 0, 0, 0];
      assert LittleEndian(n, 8) == [0, 0, 0, 1, 0, 0, 0, 0];
    }
  }

  lemma TwoBytes(n: nat)
    requires n <= 0xFFFF
    ensures LittleEndian(n, 2) == [n % 256, n / 256]
  {
    assert LittleEndian(n / 256, 1) == [n / 256 % 256] + LittleEndian(n / 256 / 256, 0);
  }

  /** A column of Protocol::ColumnDefinition41: catalog "def", no schema, table or original names, and twelve
      fixed bytes for the character set 33 (utf8_general_ci), the length 256, the type VAR_STRING, no flags and
      no decimals. */
  lemma BytesOfColumn(name: Bytes)
    ensures ColumnDef(name) == [3, 0x64, 0x65, 0x66] + [0] + [0] + [0] + LenencStr(name) + [0]
      + [12] + [33, 0] + [0, 1, 0, 0] + [0xFD] + [0, 0] + [0] + [0, 0]
  {
    hide LenencStr;
    DefFirst();
    EmptyString();
    assert COLUMN_TAIL == [12] + [33, 0] + [0, 1, 0, 0] + [0xFD] + [0, 0] + [0] + [0, 0];
    var named, none, tail := LenencStr(name), [0], COLUMN_TAIL;
    assert LenencStr(DEF) + (none + (none + (none + (named + (none + tail)))))
      == LenencStr(DEF) + none + none + none + named + none + tail;
  }

  lemma EmptyString()
    ensures LenencStr([]) == [0]
  {
  }

  method BuildResultSet(columns: seq<Bytes>, rows: seq<Row>) returns (payloads: seq<Bytes>)
    ensures payloads == ResultSet(columns, rows)
  {
    hide LenencInt, ColumnDef, RowPacket;
    payloads := [LenencInt(|columns|)];
    assert columns[0..] == columns;
    for i := 0 to |columns|
      invariant payloads + ColumnPackets(columns[i..]) == [LenencInt(|columns|)] + ColumnPackets(columns)
    {
      assert columns[i..][1..] == columns[i + 1..];
      payloads := payloads + [ColumnDef(columns[i])];
    }
    assert columns[|columns|..] == [] && payloads == payloads + [];
    payloads := payloads + [EOF_PACKET];
    ghost var head := payloads;
    assert rows[0..] == rows;
    for i := 0 to |rows|
      invariant payloads + RowPackets(rows[i..]) == head + RowPackets(rows)
    {
      assert rows[i..][1..] == rows[i + 1..];
      payloads := payloads + [RowPacket(rows[i])];
    }
    assert rows[|rows|..] == [] && payloads == payloads + [];
    payloads := payloads + [EOF_PACKET];
    assert payloads == [LenencInt(|columns|)] + ColumnPackets(columns) + [EOF_PACKET] + RowPackets(rows) + [EOF_PACKET];
  }

  function FrameAll(payloads: seq<Bytes>, id: nat): Bytes {
    if payloads == [] then [] else Frame(payloads[0], id) + FrameAll(payloads[1..], id + 1)
  }

  /** The reply loop of COM_QUERY: the packets of one answer, numbered from 1. */
  method WriteAnswer(packets: seq<Bytes>) returns (written: Bytes)
    ensures written == FrameAll(packets, 1)
  {
    written := [];
    var id := 1;
    assert packets[0..] == packets;
    for i := 0 to |packets|
      invariant id == i + 1
      invariant written + FrameAll(packets[i..], id) == FrameAll(packets, 1)
    {
      assert packets[i..][1..] == packets[i + 1..];
      assert written + (Frame(packets[i], id) + FrameAll(packets[i + 1..], id + 1))
        == written + Frame(packets[i], id) + FrameAll(packets[i + 1..], id + 1);
      written := written + Frame(packets[i], id);
      id := id + 1;
    }
  }

  // The client

  predicate IsEof(p: Bytes) {
    p != [] && p[0] == 0xFE && |p| < 9
  }

  predicate IsErr(p: Bytes) {
    p != [] && p[0] == 0xFF
  }

  /** A payload of this length is continued in the next packet. */
  const CONTINUED: nat := FRAME_LIMIT - 1

  /** The next packet, which must carry the next number, with those that continue it. */
  function Receive(stream: Bytes, id: nat): (r: Option<(Bytes, Bytes)>)
    ensures r.Some? ==> |r.value.0| + |r.value.1| + 4 <= |stream|
    decreases |stream|
  {
    var p := ReadPacket(stream);
    if p.None? || p.value.id != id % 256 then None
    else if |p.value.payload| != CONTINUED then Some((p.value.payload, p.value.rest))
    else
      var more := Receive(p.value.rest, id + 1);
      if more.None? then None else Some((p.value.payload + more.value.0, more.value.1))
  }

  /** The name in a column definition, once everything around it is as expected. */
  function DecodeColumn(p: Bytes): Option<Bytes> {
    var catalog := DecodeStr(p);
    if catalog.None? || catalog.value.0 != DEF then None else
    var schema := DecodeStr(catalog.value.1);
    if schema.None? then None else
    var table := DecodeStr(schema.value.1);
    if table.None? then None else
    var orgTable := DecodeStr(table.value.1);
    if orgTable.None? then None else
    var name := DecodeStr(orgTable.value.1);
    if name.None? then None else
    var orgName := DecodeStr(name.value.1);
    if orgName.None? || orgName.value.1 != COLUMN_TAIL then None else Some(name.value.0)
  }

  function ReadColumns(stream: Bytes, id: nat, count: nat): Option<(seq<Bytes>, Bytes)>
    decreases count
  {
    if count == 0 then Some(([], stream))
    else
      var p := Receive(stream, id);
      if p.None? || IsErr(p.value.0) || IsEof(p.value.0) then None else
      var name := DecodeColumn(p.value.0);
      if name.None? then None else
      var rest := ReadColumns(p.value.1, id + 1, count - 1);
      if rest.None? then None else Some(([name.value] + rest.value.0, rest.value.1))
  }

  /** `width` values; 0xFB is a NULL. */
  function DecodeRow(p: Bytes, width: nat): Option<Row> {
    if width == 0 then (if p == [] then Some([]) else None)
    else if p != [] && p[0] == 0xFB then
      var rest := DecodeRow(p[1..], width - 1);
      if rest.None? then None else Some([None] + rest.value)
    else
      var v := DecodeStr(p);
      if v.None? then None else
      var rest := DecodeRow(v.value.1, width - 1);
      if rest.None? then None else Some([Some(v.value.0)] + rest.value)
  }

  function ReadRows(stream: Bytes, id: nat, width: nat): Option<(seq<Row>, Bytes)>
    decreases |stream|
  {
    var p := Receive(stream, id);
    if p.None? || IsErr(p.value.0) then None
    else if IsEof(p.value.0) then Some(([], p.value.1))
    else
      var row := DecodeRow(p.value.0, width);
      if row.None? then None else
      var rest := ReadRows(p.value.1, id + 1, width);
      if rest.None? then None else Some(([row.value] + rest.value.0, rest.value.1))
  }

  datatype Table = Table(columns: seq<Bytes>, rows: seq<Row>)

  /** ProtocolText::Resultset: a column count that is neither OK (0x00) nor an error nor a request for a
      local file (0xFB), that many columns, an EOF, rows up to an EOF. */
  function ReadTable(stream: Bytes): Option<(Table, Bytes)> {
    var first := Receive(stream, 1);
    if first.None? || first.value.0 == [] || first.value.0[0] in {0x00, 0xFB, 0xFF} then None else
    var count := DecodeInt(first.value.0);
    if count.None? || count.value.1 != [] then None else
    var columns := ReadColumns(first.value.1, 2, count.value.0);
    if columns.None? then None else
    var eof := Receive(columns.value.1, count.value.0 + 2);
    if eof.None? || !IsEof(eof.value.0) then None else
    var rows := ReadRows(eof.value.1, count.value.0 + 3, count.value.0);
    if rows.None? then None else Some((Table(columns.value.0, rows.value.0), rows.value.1))
  }

  // The round trip

  predicate Fits(p: Bytes) {
    |p| < CONTINUED
  }

  /** What a row looks like on arrival. */
  function Filled(row: Row): Row {
    if row == [] then [] else [Some(row[0].GetOr([]))] + Filled(row[1..])
  }

  function FilledAll(rows: seq<Row>): seq<Row> {
    if rows == [] then [] else [Filled(rows[0])] + FilledAll(rows[1..])
  }

  /** A client takes a frame for what was sent, and for no more, exactly when its payload is shorter than
      2^24 - 1 bytes: at that length it waits for a continuation that the source never sends. */
  lemma FrameReachesClient(p: Bytes, id: nat, rest: Bytes)
    ensures Receive(Frame(p, id) + rest, id) == Some((p, rest)) <==> Fits(p)
  {
    hide ReadPacket;
    var stream := Frame(p, id) + rest;
    FrameReadsBack(p, id, rest);
    assert |stream| == 4 + |p| + |rest|;
    var first := ReadPacket(stream);
    if first.Some? && |first.value.payload| == CONTINUED {
      var more := Receive(first.value.rest, id + 1);
      assert more.Some? ==> |first.value.payload + more.value.0| + |more.value.1| + 8 <= |stream|;
    } else if first.Some? && first.value.id == id % 256 {
      PacketIs(stream);
      assert first.value.payload == p && first.value.rest == rest ==> first == Some(Packet(id % 256, p, rest));
    }
  }

  lemma PacketIs(stream: Bytes)
    ensures ReadPacket(stream).Some? ==> var p := ReadPacket(stream).value; p == Packet(p.id, p.payload, p.rest)
  {
  }

  lemma ReceiveFramed(p: Bytes, id: nat, rest: Bytes)
    requires Fits(p)
    ensures Receive(Frame(p, id) + rest, id) == Some((p, rest))
  {
    FrameReachesClient(p, id, rest);
  }

  lemma ColumnReadsBack(name: Bytes)
    requires |name| < 0x1_0000_0000_0000_0000
    ensures DecodeColumn(ColumnDef(name)) == Some(name)
    ensures !IsEof(ColumnDef(name)) && !IsErr(ColumnDef(name))
  {
    hide DecodeStr, LenencStr;
    var tail := COLUMN_TAIL;
    StrReadsBack([], tail);
    var t5 := LenencStr([]) + tail;
    StrReadsBack(name, t5);
    var t4 := LenencStr(name) + t5;
    StrReadsBack([], t4);
    var t3 := LenencStr([]) + t4;
    StrReadsBack([], t3);
    var t2 := LenencStr([]) + t3;
    StrReadsBack([], t2);
    var t1 := LenencStr([]) + t2;
    StrReadsBack(DEF, t1);
    DefFirst();
  }

  lemma DefFirst()
    ensures LenencStr(DEF) == [3, 0x64, 0x65, 0x66]
  {
  }

  lemma {:induction false} RowReadsBack(row: Row)
    requires Fits(RowPacket(row))
    ensures DecodeRow(RowPacket(row), |row|) == Some(Filled(row))
    ensures row != [] ==> RowPacket(row) != [] && !IsEof(RowPacket(row)) && !IsErr(RowPacket(row))
  {
    hide DecodeStr, LenencInt;
    if row != [] {
      var v := row[0].GetOr([]);
      var rest := RowPacket(row[1..]);
      RowReadsBack(row[1..]);
      StrReadsBack(v, rest);
      IntReadsBack(|v|, []);
      assert RowPacket(row)[0] == LenencInt(|v|)[0];
    }
  }

  /** A row of another width than announced is not a row. */
  lemma {:induction false} RaggedRow(row: Row, width: nat)
    requires Fits(RowPacket(row)) && |row| != width
    ensures DecodeRow(RowPacket(row), width) == None
    ensures !IsEof(RowPacket(row)) && !IsErr(RowPacket(row))
  {
    hide DecodeStr, LenencInt;
    RowReadsBack(row);
    if row == [] {
      assert DecodeStr([]).None? by { NothingDecodes(); }
    } else if width > 0 {
      var v := row[0].GetOr([]);
      var rest := RowPacket(row[1..]);
      RaggedRow(row[1..], width - 1);
      StrReadsBack(v, rest);
      IntReadsBack(|v|, []);
      assert RowPacket(row)[0] == LenencInt(|v|)[0];
    }
  }

  lemma NothingDecodes()
    ensures DecodeStr([]) == None
  {
  }

  predicate Rectangular(rows: seq<Row>, width: nat) {
    forall i | 0 <= i < |rows| :: |rows[i]| == width
  }

  lemma {:induction false} ColumnsReadBack(columns: seq<Bytes>, id: nat, rest: Bytes)
    requires forall i | 0 <= i < |columns| :: Fits(ColumnDef(columns[i]))
    ensures ReadColumns(FrameAll(ColumnPackets(columns), id) + rest, id, |columns|) == Some((columns, rest))
  {
    hide DecodeColumn, ColumnDef, Frame, Receive;
    if columns == [] {
      assert [] + rest == rest;
    } else {
      var p := ColumnDef(columns[0]);
      var more := FrameAll(ColumnPackets(columns[1..]), id + 1);
      assert ColumnPackets(columns)[1..] == ColumnPackets(columns[1..]);
      assert Frame(p, id) + more + rest == Frame(p, id) + (more + rest);
      ReceiveFramed(p, id, more + rest);
      NameFits(columns[0]);
      ColumnReadsBack(columns[0]);
      ColumnsReadBack(columns[1..], id + 1, rest);
      assert columns == [columns[0]] + columns[1..];
    }
  }

  lemma NameFits(name: Bytes)
    ensures |name| <= |ColumnDef(name)|
  {
    hide LenencInt;
  }

  lemma {:induction false} RowsReadBack(rows: seq<Row>, id: nat, width: nat, rest: Bytes)
    requires width >= 1
    requires forall i | 0 <= i < |rows| :: Fits(RowPacket(rows[i]))
    ensures ReadRows(FrameAll(RowPackets(rows) + [EOF_PACKET], id) + rest, id, width)
      == if Rectangular(rows, width) then Some((FilledAll(rows), rest)) else None
    decreases |rows|
  {
    hide DecodeRow, RowPacket, Frame, Receive, Filled;
    var packets := RowPackets(rows) + [EOF_PACKET];
    if rows == [] {
      assert packets == [EOF_PACKET] && packets[1..] == [];
      assert Frame(EOF_PACKET, id) + [] + rest == Frame(EOF_PACKET, id) + rest;
      ReceiveFramed(EOF_PACKET, id, rest);
    } else {
      var p := RowPacket(rows[0]);
      var more := FrameAll(RowPackets(rows[1..]) + [EOF_PACKET], id + 1);
      assert packets[0] == p && packets[1..] == RowPackets(rows[1..]) + [EOF_PACKET];
      assert Frame(p, id) + more + rest == Frame(p, id) + (more + rest);
      ReceiveFramed(p, id, more + rest);
      if |rows[0]| == width {
        RowReadsBack(rows[0]);
        RowsReadBack(rows[1..], id + 1, width, rest);
        assert Rectangular(rows, width) <==> Rectangular(rows[1..], width) by {
          assert rows == [rows[0]] + rows[1..];
        }
      } else {
        RaggedRow(rows[0], width);
      }
    }
  }

  lemma {:induction false} FrameAllAppend(a: seq<Bytes>, b: seq<Bytes>, id: nat)
    ensures FrameAll(a + b, id) == FrameAll(a, id) + FrameAll(b, id + |a|)
  {
    hide Frame;
    if a == [] {
      assert a + b == b;
    } else {
      assert (a + b)[1..] == a[1..] + b;
      FrameAllAppend(a[1..], b, id + 1);
      var f, x, y := Frame(a[0], id), FrameAll(a[1..], id + 1), FrameAll(b, id + |a|);
      assert f + (x + y) == f + x + y;
    }
  }

  /** A client gets back exactly the table that was sent, with its packets numbered from 1 and nothing
      of what follows consumed, exactly when the table has a column and every row has that width; it
      reads no table otherwise. No column or row is ever taken for an EOF, an error or a NULL. The
      packets must fit their frames. */
  lemma ResultSetReadsBack(columns: seq<Bytes>, rows: seq<Row>, rest: Bytes)
    requires |columns| < 0x1_0000_0000_0000_0000
    requires forall i | 0 <= i < |columns| :: Fits(ColumnDef(columns[i]))
    requires forall i | 0 <= i < |rows| :: Fits(RowPacket(rows[i]))
    ensures ReadTable(FrameAll(ResultSet(columns, rows), 1) + rest)
      == if columns != [] && Rectangular(rows, |columns|) then Some((Table(columns, FilledAll(rows)), rest)) else None
  {
    if columns == [] {
      NoColumnsReadAsOk(rows, rest);
    } else {
      TableReadsBack(columns, rows, rest);
    }
  }

  lemma TableReadsBack(columns: seq<Bytes>, rows: seq<Row>, rest: Bytes)
    requires 1 <= |columns| < 0x1_0000_0000_0000_0000
    requires forall i | 0 <= i < |columns| :: Fits(ColumnDef(columns[i]))
    requires forall i | 0 <= i < |rows| :: Fits(RowPacket(rows[i]))
    ensures ReadTable(FrameAll(ResultSet(columns, rows), 1) + rest)
      == if Rectangular(rows, |columns|) then Some((Table(columns, FilledAll(rows)), rest)) else None
  {
    hide LenencInt, ColumnDef, RowPacket, Frame, Receive, ReadColumns, ReadRows, DecodeInt, ReadTable;
    hide FrameAll, ColumnPackets, RowPackets, ResultSet, Rectangular, FilledAll;
    var n := |columns|;
    var count := LenencInt(n);
    var cs, rs := ColumnPackets(columns), RowPackets(rows) + [EOF_PACKET];
    ResultSetInFrames(columns, rows, rest);
    var s4 := FrameAll(rs, n + 3) + rest;
    var s3 := Frame(EOF_PACKET, n + 2) + s4;
    var s2 := FrameAll(cs, 2) + s3;
    CountPacket(n);
    ReceiveFramed(count, 1, s2);
    ColumnsReadBack(columns, 2, s3);
    ReceiveFramed(EOF_PACKET, n + 2, s4);
    RowsReadBack(rows, n + 3, n, rest);
    TableInParts(Frame(count, 1) + s2, s2, s3, s4, columns);
  }

  /** The client's way through a table, once the parts before the rows are known. */
  lemma TableInParts(s1: Bytes, s2: Bytes, s3: Bytes, s4: Bytes, columns: seq<Bytes>)
    requires 1 <= |columns| < 0x1_0000_0000_0000_0000
    requires Receive(s1, 1) == Some((LenencInt(|columns|), s2))
    requires ReadColumns(s2, 2, |columns|) == Some((columns, s3))
    requires Receive(s3, |columns| + 2) == Some((EOF_PACKET, s4))
    ensures var rows := ReadRows(s4, |columns| + 3, |columns|);
      ReadTable(s1) == if rows.None? then None else Some((Table(columns, rows.value.0), rows.value.1))
  {
    hide LenencInt, Receive, ReadColumns, ReadRows, DecodeInt;
    CountPacket(|columns|);
  }

  lemma CountPacket(n: nat)
    requires n < 0x1_0000_0000_0000_0000
    ensures DecodeInt(LenencInt(n)) == Some((n, [])) && Fits(LenencInt(n))
    ensures LenencInt(n)[0] in {0x00, 0xFB, 0xFF} <==> n == 0
  {
    IntReadsBack(n, []);
    assert LenencInt(n) + [] == LenencInt(n);
  }

  lemma ResultSetInFrames(columns: seq<Bytes>, rows: seq<Row>, rest: Bytes)
    ensures var n := |columns|;
      FrameAll(ResultSet(columns, rows), 1) + rest
      == Frame(LenencInt(n), 1) + (FrameAll(ColumnPackets(columns), 2)
         + (Frame(EOF_PACKET, n + 2) + (FrameAll(RowPackets(rows) + [EOF_PACKET], n + 3) + rest)))
  {
    hide LenencInt, ColumnPackets, RowPackets, Frame;
    var n := |columns|;
    var first, cs, rs := LenencInt(n), ColumnPackets(columns), RowPackets(rows) + [EOF_PACKET];
    var tail := cs + ([EOF_PACKET] + rs);
    assert ResultSet(columns, rows)[1..] == tail;
    FrameAllAppend(cs, [EOF_PACKET] + rs, 2);
    assert ([EOF_PACKET] + rs)[1..] == rs;
    FourParts(Frame(first, 1), FrameAll(cs, 2), Frame(EOF_PACKET, n + 2), FrameAll(rs, n + 3), rest);
  }

  lemma FourParts(a: Bytes, b: Bytes, c: Bytes, d: Bytes, e: Bytes)
    ensures a + (b + (c + d)) + e == a + (b + (c + (d + e)))
  {
  }

  /** Without a column the round trip fails: what the client receives first is a lone zero, the byte that
      opens an OK packet. */
  lemma NoColumnsReadAsOk(rows: seq<Row>, rest: Bytes)
    ensures var first := Receive(FrameAll(ResultSet([], rows), 1) + rest, 1); first.Some? && first.value.0 == [0x00]
    ensures ReadTable(FrameAll(ResultSet([], rows), 1) + rest) == None
  {
    hide Frame, Receive, ReadColumns, ReadRows, RowPacket;
    ResultSetInFrames([], rows, rest);
    ReceiveFramed(LenencInt(0), 1, FrameAll(ColumnPackets([]), 2)
      + (Frame(EOF_PACKET, 2) + (FrameAll(RowPackets(rows) + [EOF_PACKET], 3) + rest)));
  }
}
