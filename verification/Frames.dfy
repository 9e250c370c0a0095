/**
 A transmit transfer's 512-byte buffer: an 8-byte header, a payload that grows by whole records,
 and the zero padding and length field added when the frame is submitted.
 */
module Frames {
  import opened Wire

  const MAX_LENGTH := 512
  const PREFILL := 8       // sizeof(protocol::Header)
  const CRC := 2           // sizeof(protocol::CrcCheck)
  const SDO: Byte := 0x21
  const PDO: Byte := 0x11

  datatype Transfer = Transfer(buffer: seq<Byte>, length: nat)

  /** The constant header fields are in place and the length leaves room for the checksum. */
  predicate Open(t: Transfer) {
    && |t.buffer| == MAX_LENGTH
    && PREFILL <= t.length <= MAX_LENGTH - CRC
    && HeaderConstants(t.buffer)
  }

  predicate HeaderConstants(b: seq<Byte>)
    requires |b| >= PREFILL
  {
    b[0] == 0xAA && b[1] == 0x55 && b[2] == 0x00 && b[3] == 0xA0 && b[7] == 0x00
  }

  function Kind(t: Transfer): Byte
    requires |t.buffer| == MAX_LENGTH
  {
    t.buffer[6]
  }

  predicate Fresh(t: Transfer) {
    && Open(t)
    && t.length == PREFILL
    && Kind(t) == 0
  }

  function Payload(t: Transfer): seq<Byte>
    requires Open(t)
  {
    t.buffer[PREFILL..t.length]
  }

  /** The check `fetch_sdo_buffer` and `fetch_pdo_buffer` make on the front transfer. */
  predicate Accepts(t: Transfer, kind: Byte, size: nat)
    requires |t.buffer| == MAX_LENGTH
  {
    MAX_LENGTH - t.length >= size + CRC && (Kind(t) == 0 || Kind(t) == kind)
  }

  /** `size` more bytes claimed behind the payload. */
  function Claim(t: Transfer, kind: Byte, size: nat): (t': Transfer)
    requires Open(t) && Accepts(t, kind, size)
    ensures Open(t') && Kind(t') == kind && t'.length == t.length + size
    ensures Payload(t) <= Payload(t')
  {
    var t' := Transfer(t.buffer[6 := kind], t.length + size);
    assert Payload(t')[..t.length - PREFILL] == Payload(t);
    t'
  }

  /** A record constructed in the claimed bytes. */
  function Put(t: Transfer, offset: nat, record: seq<Byte>): (t': Transfer)
    requires Open(t) && PREFILL <= offset && offset + |record| == t.length
    ensures Open(t') && Kind(t') == Kind(t) && t'.length == t.length
    ensures Payload(t') == Payload(t)[..offset - PREFILL] + record
  {
    var buffer := t.buffer[..offset] + record + t.buffer[t.length..];
    assert buffer[PREFILL..t.length] == t.buffer[PREFILL..offset] + record;
    assert t.buffer[PREFILL..offset] == Payload(t)[..offset - PREFILL];
    Transfer(buffer, t.length)
  }

  /** `usb_transmit_complete_callback` up to the push: the transfer as it re-enters the ring. */
  function Recycle(t: Transfer): (t': Transfer)
    requires |t.buffer| == MAX_LENGTH && HeaderConstants(t.buffer)
    ensures Fresh(t')
  {
    Transfer(t.buffer[6 := 0], PREFILL)
  }

  // ---------------------------------------------------------------- sealing

  function Blocks(length: nat): nat {
    (length + CRC - 1) / 16 + 1
  }

  /** The ten window bits and the six length bits, low bits first as the compiler lays them out. */
  function Description(blocks: nat): nat {
    0xA0 + 0x400 * ((blocks - 1) % 0x40)
  }

  function DescribedLength(high: Byte, low: Byte): nat {
    16 * (BigEndian(high, low) / 0x400 + 1)
  }

  function DescribedWindow(high: Byte, low: Byte): nat {
    BigEndian(high, low) % 0x400
  }

  /** `before_submitting_transmit_transfer` */
  function Seal(t: Transfer): (t': Transfer)
    requires Open(t)
    ensures |t'.buffer| == MAX_LENGTH && t.length < t'.length <= MAX_LENGTH && HeaderConstants(t'.buffer)
  {
    var padded := 16 * Blocks(t.length);
    var filled := t.buffer[..t.length] + seq(padded - t.length, _ => 0) + t.buffer[padded..];
    var description := Description(Blocks(t.length));
    Transfer(filled[4 := description / 0x100][5 := description % 0x100], padded)
  }

  /** The bytes handed to libusb. */
  function Frame(t: Transfer): (f: seq<Byte>)
    requires Open(t)
    ensures |f| == 16 * Blocks(t.length)
  {
    var s := Seal(t);
    s.buffer[..s.length]
  }

  /** The sealed length is the least multiple of 16 that also holds the checksum. */
  lemma PaddedLengthIsLeast(t: Transfer, m: nat)
    requires Open(t)
    requires m % 16 == 0 && t.length + CRC <= m
    ensures |Frame(t)| % 16 == 0 && t.length + CRC <= |Frame(t)| <= MAX_LENGTH
    ensures |Frame(t)| <= m
  {
  }

  /** A receiver reads the frame's own length, the window, the kind and the payload back. */
  lemma FrameReadsBack(t: Transfer)
    requires Open(t)
    ensures var f := Frame(t);
      && DescribedLength(f[4], f[5]) == |f|
      && DescribedWindow(f[4], f[5]) == 0xA0
      && f[4] == 4 * (|f| / 16 - 1) && f[5] == 0xA0
      && HeaderConstants(f) && f[6] == Kind(t)
      && f[PREFILL..] == Payload(t) + seq(|f| - t.length, _ => 0)
  {
    var f := Frame(t);
    DescriptionReadsBack(Blocks(t.length));
    var zeros: seq<Byte> := seq(|f| - t.length, _ => 0);
    assert f[PREFILL..] == t.buffer[PREFILL..t.length] + zeros;
  }

  lemma DescriptionReadsBack(blocks: nat)
    requires 1 <= blocks <= 0x40
    ensures var d := Description(blocks);
      && d < 0x1_0000
      && DescribedLength(d / 0x100, d % 0x100) == 16 * blocks
      && DescribedWindow(d / 0x100, d % 0x100) == 0xA0
  {
    var d := Description(blocks);
    assert BigEndian(d / 0x100, d % 0x100) == d;
  }

  /** `f` is a submitted SDO frame carrying exactly `rs`. */
  ghost predicate Carries(f: seq<Byte>, rs: seq<Request>) {
    && PREFILL <= |f| <= MAX_LENGTH && |f| % 16 == 0
    && HeaderConstants(f) && f[6] == SDO
    && DescribedLength(f[4], f[5]) == |f|
    && var n := |EncodeRequests(rs)|;
       && PREFILL + n + CRC <= |f| < PREFILL + n + CRC + 16
       && f[PREFILL..] == EncodeRequests(rs) + seq(|f| - PREFILL - n, _ => 0)
  }

  lemma SealedFrameCarries(t: Transfer, rs: seq<Request>)
    requires Open(t) && Kind(t) == SDO && Payload(t) == EncodeRequests(rs)
    ensures Carries(Frame(t), rs)
  {
    FrameReadsBack(t);
  }

  /** What the device decodes from a frame's body. */
  function DecodeFrame(f: seq<Byte>): seq<Request> {
    if |f| < PREFILL then [] else ParseRequests(f[PREFILL..])
  }

  lemma CarriedRequestsDecode(f: seq<Byte>, rs: seq<Request>)
    requires Carries(f, rs) && forall r :: r in rs ==> WellFormedRequest(r)
    ensures DecodeFrame(f) == rs
  {
    ParseRecoversRequests(rs, |f| - PREFILL - |EncodeRequests(rs)|);
  }
}
