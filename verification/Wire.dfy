/**
 SDO records on the wire: a control byte, a big-endian index, a sub-index, then the value in host
 (little-endian) order. Requests go to the device, replies come back.
 */
module Wire {
  import Bits
  import opened Common

  type Byte = x: nat | x < 0x100
  type UInt16 = x: nat | x < 0x1_0000

  datatype Key = Key(index: UInt16, sub: Byte)

  datatype Size = Size1 | Size2 | Size4 | Size8

  datatype Request =
    | Read(key: Key)
    | Write(key: Key, size: Size, value: nat)

  datatype Reply =
    | ReadSuccess(key: Key, size: Size, value: nat)
    | ReadError(key: Key, code: nat)
    | WriteSuccess(key: Key)
    | WriteError(key: Key, code: nat)

  function Width(size: Size): (n: nat)
    ensures 1 <= n <= 8
  {
    match size
    case Size1 => 1
    case Size2 => 2
    case Size4 => 4
    case Size8 => 8
  }

  /** How many values fit in `n` bytes. */
  function Limit(n: nat): (l: nat)
    ensures l > 0
  {
    if n == 0 then 1 else 0x100 * Limit(n - 1)
  }

  /** What a field of the given size keeps of a value. */
  function Truncate(value: nat, size: Size): (v: nat)
    ensures v < Limit(Width(size))
  {
    value % Limit(Width(size))
  }

  function LittleEndian(v: nat, n: nat): (bs: seq<Byte>)
    ensures |bs| == n
  {
    if n == 0 then [] else [v % 0x100] + LittleEndian(v / 0x100, n - 1)
  }

  function FromLittleEndian(bs: seq<Byte>): nat {
    if bs == [] then 0 else bs[0] + 0x100 * FromLittleEndian(bs[1..])
  }

  lemma {:induction false} LittleEndianRoundTrip(v: nat, n: nat)
    requires v < Limit(n)
    ensures FromLittleEndian(LittleEndian(v, n)) == v
  {
    if n > 0 {
      LittleEndianRoundTrip(v / 0x100, n - 1);
      assert LittleEndian(v, n)[1..] == LittleEndian(v / 0x100, n - 1);
    }
  }

  lemma {:induction false} FromLittleEndianRoundTrip(bs: seq<Byte>)
    ensures FromLittleEndian(bs) < Limit(|bs|)
    ensures LittleEndian(FromLittleEndian(bs), |bs|) == bs
  {
    if bs != [] {
      FromLittleEndianRoundTrip(bs[1..]);
      var rest := FromLittleEndian(bs[1..]);
      assert (bs[0] + 0x100 * rest) % 0x100 == bs[0] && (bs[0] + 0x100 * rest) / 0x100 == rest;
    }
  }

  function Header(control: Byte, key: Key): (bs: seq<Byte>)
    ensures |bs| == 4
  {
    [control, key.index / 0x100, key.index % 0x100, key.sub]
  }

  function KeyOf(bs: seq<Byte>): Key
    requires |bs| >= 4
  {
    Key(BigEndian(bs[1], bs[2]), bs[3])
  }

  function BigEndian(high: nat, low: nat): nat {
    0x100 * high + low
  }

  // ---------------------------------------------------------------- replies

  function ReadControl(size: Size): Byte {
    match size
    case Size1 => 0x35
    case Size2 => 0x37
    case Size4 => 0x39
    case Size8 => 0x3D
  }

  predicate WellFormedReply(r: Reply) {
    match r
    case ReadSuccess(_, size, value) => value < Limit(Width(size))
    case ReadError(_, code) => code < Limit(4)
    case WriteSuccess(_) => true
    case WriteError(_, code) => code < Limit(4)
  }

  function EncodeReply(r: Reply): (bs: seq<Byte>)
    ensures |bs| >= 4
  {
    match r
    case ReadSuccess(key, size, value) => Header(ReadControl(size), key) + LittleEndian(value, Width(size))
    case ReadError(key, code) => Header(0x33, key) + LittleEndian(code, 4)
    case WriteSuccess(key) => Header(0x21, key)
    case WriteError(key, code) => Header(0x23, key) + LittleEndian(code, 4)
  }

  /** The value field behind a known reply control byte, in bytes. */
  function ReplyBody(control: Byte): Option<nat> {
    if control == 0x35 then Some(1)
    else if control == 0x37 then Some(2)
    else if control == 0x39 then Some(4)
    else if control == 0x3D then Some(8)
    else if control == 0x33 then Some(4)
    else if control == 0x21 then Some(0)
    else if control == 0x23 then Some(4)
    else None
  }

  function DecodeReply(bs: seq<Byte>): Reply
    requires |bs| >= 4 && ReplyBody(bs[0]) == Some(|bs| - 4)
  {
    var key, value := KeyOf(bs), FromLittleEndian(bs[4..]);
    if bs[0] == 0x35 then ReadSuccess(key, Size1, value)
    else if bs[0] == 0x37 then ReadSuccess(key, Size2, value)
    else if bs[0] == 0x39 then ReadSuccess(key, Size4, value)
    else if bs[0] == 0x3D then ReadSuccess(key, Size8, value)
    else if bs[0] == 0x33 then ReadError(key, value)
    else if bs[0] == 0x21 then WriteSuccess(key)
    else WriteError(key, value)
  }

  datatype End = Finished | Truncated | Invalid(control: Byte)

  datatype Parsed = Parsed(replies: seq<Reply>, end: End)

  /** `read_sdo_frame` on the bytes from the pointer to the sentinel, before any unit is looked up. */
  function Parse(bs: seq<Byte>): Parsed {
    if bs == [] || bs[0] == 0 then Parsed([], Finished)
    else match ReplyBody(bs[0])
      case None => Parsed([], Invalid(bs[0]))
      case Some(n) =>
        if |bs| < 4 + n then Parsed([], Truncated)
        else
          var rest := Parse(bs[4 + n..]);
          rest.(replies := [DecodeReply(bs[..4 + n])] + rest.replies)
  }

  function EncodeReplies(rs: seq<Reply>): seq<Byte> {
    if rs == [] then [] else EncodeReply(rs[0]) + EncodeReplies(rs[1..])
  }

  lemma HeaderKey(control: Byte, key: Key, body: seq<Byte>)
    ensures KeyOf(Header(control, key) + body) == key
    ensures (Header(control, key) + body)[4..] == body
  {
  }

  lemma DecodeEncodeReply(r: Reply)
    requires WellFormedReply(r)
    ensures var bs := EncodeReply(r);
      ReplyBody(bs[0]) == Some(|bs| - 4) && DecodeReply(bs) == r && bs[0] != 0
  {
    match r
    case ReadSuccess(key, size, value) =>
      HeaderKey(ReadControl(size), key, LittleEndian(value, Width(size)));
      LittleEndianRoundTrip(value, Width(size));
    case ReadError(key, code) =>
      HeaderKey(0x33, key, LittleEndian(code, 4));
      LittleEndianRoundTrip(code, 4);
    case WriteSuccess(key) =>
      HeaderKey(0x21, key, []);
      assert Header(0x21, key) + [] == Header(0x21, key);
    case WriteError(key, code) =>
      HeaderKey(0x23, key, LittleEndian(code, 4));
      LittleEndianRoundTrip(code, 4);
  }

  lemma EncodeDecodeReply(bs: seq<Byte>)
    requires |bs| >= 4 && ReplyBody(bs[0]) == Some(|bs| - 4)
    ensures EncodeReply(DecodeReply(bs)) == bs && WellFormedReply(DecodeReply(bs))
  {
    FromLittleEndianRoundTrip(bs[4..]);
    HeaderOfKey(bs);
    assert bs == bs[..4] + bs[4..];
  }

  lemma HeaderOfKey(bs: seq<Byte>)
    requires |bs| >= 4
    ensures Header(bs[0], KeyOf(bs)) == bs[..4]
  {
    var i := BigEndian(bs[1], bs[2]);
    assert i / 0x100 == bs[1] && i % 0x100 == bs[2];
  }

  /** Well-formed replies followed by zero padding are recovered exactly. */
  lemma {:induction false} ParseRecoversReplies(rs: seq<Reply>, padding: nat)
    requires forall r :: r in rs ==> WellFormedReply(r)
    ensures Parse(EncodeReplies(rs) + seq(padding, _ => 0)) == Parsed(rs, Finished)
  {
    var zeros: seq<Byte> := seq(padding, _ => 0);
    if rs != [] {
      var head, tail := EncodeReply(rs[0]), EncodeReplies(rs[1..]) + zeros;
      DecodeEncodeReply(rs[0]);
      ParseRecoversReplies(rs[1..], padding);
      assert EncodeReplies(rs) + zeros == head + tail;
      ParseStep(head, tail);
      assert rs == [rs[0]] + rs[1..];
    } else {
      assert EncodeReplies(rs) + zeros == zeros;
    }
  }

  lemma ParseStep(head: seq<Byte>, tail: seq<Byte>)
    requires |head| >= 4 && head[0] != 0 && ReplyBody(head[0]) == Some(|head| - 4)
    ensures Parse(head + tail) == Parse(tail).(replies := [DecodeReply(head)] + Parse(tail).replies)
  {
    hide DecodeReply, ReplyBody;
    assert (head + tail)[..|head|] == head && (head + tail)[|head|..] == tail;
  }

  /** On arbitrary bytes: the decoded replies re-encode to the bytes consumed, and `end` says why parsing stopped. */
  lemma {:induction false} ParseIsExact(bs: seq<Byte>) returns (rest: seq<Byte>)
    ensures bs == EncodeReplies(Parse(bs).replies) + rest
    ensures forall r :: r in Parse(bs).replies ==> WellFormedReply(r)
    ensures match Parse(bs).end
      case Finished => rest == [] || rest[0] == 0
      case Truncated => rest != [] && rest[0] != 0 && ReplyBody(rest[0]).Some? && |rest| < 4 + ReplyBody(rest[0]).value
      case Invalid(control) => rest != [] && rest[0] == control != 0 && ReplyBody(control) == None
  {
    hide DecodeReply, EncodeReply, ReplyBody, WellFormedReply;
    rest := bs;
    if bs != [] && bs[0] != 0 && ReplyBody(bs[0]).Some? && 4 + ReplyBody(bs[0]).value <= |bs| {
      var n := 4 + ReplyBody(bs[0]).value;
      EncodeDecodeReply(bs[..n]);
      rest := ParseIsExact(bs[n..]);
      var rs := Parse(bs).replies;
      assert rs[1..] == Parse(bs[n..]).replies;
      assert bs == bs[..n] + (EncodeReplies(rs[1..]) + rest);
    }
  }

  // ---------------------------------------------------------------- requests

  function WriteControl(size: Size): Byte {
    match size
    case Size1 => 0x20
    case Size2 => 0x22
    case Size4 => 0x24
    case Size8 => 0x28
  }

  predicate WellFormedRequest(r: Request) {
    r.Write? ==> r.value < Limit(Width(r.size))
  }

  /** The bytes `read_async_unchecked_internal` and `write_async_unchecked_internal` place in a frame. */
  function EncodeRequest(r: Request): (bs: seq<Byte>)
    ensures 4 <= |bs| <= 12
  {
    match r
    case Read(key) => Header(0x30, key)
    case Write(key, size, value) => Header(WriteControl(size), key) + LittleEndian(value, Width(size))
  }

  function EncodeRequests(rs: seq<Request>): seq<Byte> {
    if rs == [] then [] else EncodeRequest(rs[0]) + EncodeRequests(rs[1..])
  }

  /** The device's reading of a frame: records up to the zero padding. */
  function ParseRequests(bs: seq<Byte>): seq<Request> {
    if |bs| < 4 then []
    else
      var key := KeyOf(bs);
      if bs[0] == 0x30 then [Read(key)] + ParseRequests(bs[4..])
      else match WriteSize(bs[0])
        case None => []
        case Some(size) =>
          if |bs| < 4 + Width(size) then []
          else
            [Write(key, size, FromLittleEndian(bs[4..4 + Width(size)]))] + ParseRequests(bs[4 + Width(size)..])
  }

  function WriteSize(control: Byte): Option<Size> {
    if control == 0x20 then Some(Size1)
    else if control == 0x22 then Some(Size2)
    else if control == 0x24 then Some(Size4)
    else if control == 0x28 then Some(Size8)
    else None
  }

  lemma ParseOneRequest(r: Request, tail: seq<Byte>)
    requires WellFormedRequest(r)
    ensures ParseRequests(EncodeRequest(r) + tail) == [r] + ParseRequests(tail)
  {
    match r
    case Read(key) =>
      HeaderKey(0x30, key, tail);
    case Write(key, size, value) =>
      ParseOneWrite(key, size, value, tail);
  }

  lemma ParseOneWrite(key: Key, size: Size, value: nat, tail: seq<Byte>)
    requires value < Limit(Width(size))
    ensures ParseRequests(EncodeRequest(Write(key, size, value)) + tail)
      == [Write(key, size, value)] + ParseRequests(tail)
  {
    var n := Width(size);
    var body := LittleEndian(value, n);
    var bs := EncodeRequest(Write(key, size, value)) + tail;
    assert bs == Header(WriteControl(size), key) + (body + tail);
    HeaderKey(WriteControl(size), key, body + tail);
    assert bs[4..4 + n] == body && bs[4 + n..] == tail;
    assert bs[0] == WriteControl(size) && bs[0] != 0x30 && WriteSize(bs[0]) == Some(size);
    LittleEndianRoundTrip(value, n);
    hide LittleEndian, FromLittleEndian, Limit, Header, KeyOf, WriteControl, WriteSize, EncodeRequest;
  }

  /** A padded run of requests is read back as exactly those requests. */
  lemma {:induction false} ParseRecoversRequests(rs: seq<Request>, padding: nat)
    requires forall r :: r in rs ==> WellFormedRequest(r)
    ensures ParseRequests(EncodeRequests(rs) + seq(padding, _ => 0)) == rs
  {
    var zeros: seq<Byte> := seq(padding, _ => 0);
    if rs != [] {
      var tail := EncodeRequests(rs[1..]) + zeros;
      assert EncodeRequests(rs) + zeros == EncodeRequest(rs[0]) + tail;
      ParseOneRequest(rs[0], tail);
      ParseRecoversRequests(rs[1..], padding);
      assert rs == [rs[0]] + rs[1..];
    } else {
      assert EncodeRequests(rs) + zeros == zeros;
    }
  }

  lemma {:induction false} EncodeRequestsAppend(rs: seq<Request>, r: Request)
    ensures EncodeRequests(rs + [r]) == EncodeRequests(rs) + EncodeRequest(r)
  {
    if rs == [] {
      assert rs + [r] == [r];
    } else {
      assert (rs + [r])[1..] == rs[1..] + [r];
      EncodeRequestsAppend(rs[1..], r);
    }
  }

  // ---------------------------------------------------------------- byte by byte

  lemma {:induction false} LittleEndianByte(v: nat, n: nat, i: nat)
    requires i < n
    ensures LittleEndian(v, n)[i] == v / Limit(i) % 0x100
  {
    if i > 0 {
      LittleEndianByte(v / 0x100, n - 1, i - 1);
      DivideTwice(v, Limit(i - 1));
    }
  }

  lemma DivideTwice(v: nat, b: nat)
    requires b > 0
    ensures v / 0x100 / b == v / (0x100 * b)
  {
    var high := v / 0x100;
    TwoQuotients(v, b, high, high / b, high % b);
  }

  lemma TwoQuotients(v: nat, b: nat, high: nat, q: nat, middle: nat)
    requires v == 0x100 * high + v % 0x100 && high == q * b + middle && middle < b
    ensures v / (0x100 * b) == q
  {
    assert q * (0x100 * b) == 0x100 * (q * b);
    Bits.ModSplit(v, q, 0x100 * middle + v % 0x100, 0x100 * b);
  }

  /** A request's bytes: the command, the big-endian index, the sub-index, then a write's value low byte first. */
  lemma RequestLayout(r: Request)
    ensures var bs := EncodeRequest(r);
      && |bs| == (if r.Read? then 4 else 4 + Width(r.size))
      && bs[0] == (if r.Read? then 0x30 else if r.size == Size1 then 0x20 else if r.size == Size2 then 0x22
                   else if r.size == Size4 then 0x24 else 0x28)
      && bs[1] == r.key.index / 0x100 && bs[2] == r.key.index % 0x100 && bs[3] == r.key.sub
      && (r.Write? ==> forall i :: 0 <= i < Width(r.size) ==> bs[4 + i] == r.value / Limit(i) % 0x100)
  {
    hide LittleEndian, Limit;
    if r.Write? {
      forall i | 0 <= i < Width(r.size)
        ensures EncodeRequest(r)[4 + i] == r.value / Limit(i) % 0x100
      {
        LittleEndianByte(r.value, Width(r.size), i);
        assert EncodeRequest(r)[4 + i] == LittleEndian(r.value, Width(r.size))[i];
      }
    }
  }

  /** A reply's bytes likewise. */
  lemma ReplyLayout(r: Reply)
    ensures var bs := EncodeReply(r);
      && |bs| == 4 + (if r.ReadSuccess? then Width(r.size) else if r.WriteSuccess? then 0 else 4)
      && bs[0] == (if r.ReadError? then 0x33 else if r.WriteSuccess? then 0x21 else if r.WriteError? then 0x23
                   else if r.size == Size1 then 0x35 else if r.size == Size2 then 0x37
                   else if r.size == Size4 then 0x39 else 0x3D)
      && bs[1] == r.key.index / 0x100 && bs[2] == r.key.index % 0x100 && bs[3] == r.key.sub
      && (r.ReadSuccess? ==> forall i :: 0 <= i < Width(r.size) ==> bs[4 + i] == r.value / Limit(i) % 0x100)
  {
    hide LittleEndian, Limit;
    if r.ReadSuccess? {
      forall i | 0 <= i < Width(r.size)
        ensures EncodeReply(r)[4 + i] == r.value / Limit(i) % 0x100
      {
        LittleEndianByte(r.value, Width(r.size), i);
        assert EncodeReply(r)[4 + i] == LittleEndian(r.value, Width(r.size))[i];
      }
    }
  }
}
