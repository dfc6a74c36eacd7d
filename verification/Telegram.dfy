/** The safety telegram of black_channel.cpp: wire layout, protecting checksum and sender. */
module Telegram {
  import opened Bits
  import Crc32

  const MAX_PAYLOAD_BYTES: nat := 64
  const OVERHEAD_BYTES: nat := 9
  const MAX_TELEGRAM_BYTES: nat := 73

  datatype SafetyAddress = SafetyAddress(source: uint16, destination: uint16, signature: uint32)

  // ------------------------------------------------------------------ layout

  /** What travels in front of the checksum. */
  function Body(payload: seq<byte>, status: byte, number: uint32): (r: seq<byte>)
    ensures |r| == |payload| + 5
  {
    payload + [status] + Le32(number)
  }

  /** The parameters that are hashed but never transmitted. */
  function Link(address: SafetyAddress): (r: seq<byte>)
    ensures |r| == 4
  {
    Le16(address.source) + Le16(address.destination)
  }

  function Hashed(address: SafetyAddress, body: seq<byte>): seq<byte> {
    body + Link(address) + Le32(address.signature)
  }

  function BodyCrc(address: SafetyAddress, body: seq<byte>): uint32 { Crc32.Checksum(Hashed(address, body)) }

  function Frame(address: SafetyAddress, payload: seq<byte>, status: byte, number: uint32): (r: seq<byte>)
    ensures |r| == |payload| + OVERHEAD_BYTES
  {
    var body := Body(payload, status, number);
    body + Le32(BodyCrc(address, body))
  }

  /** The fields a receiver reads back from a frame of sufficient length. */
  function PayloadOf(raw: seq<byte>): seq<byte>
    requires |raw| >= OVERHEAD_BYTES
  {
    raw[..|raw| - OVERHEAD_BYTES]
  }

  function StatusOf(raw: seq<byte>): byte
    requires |raw| >= OVERHEAD_BYTES
  {
    raw[|raw| - OVERHEAD_BYTES]
  }

  function NumberOf(raw: seq<byte>): uint32
    requires |raw| >= OVERHEAD_BYTES
  {
    ReadLe32(raw, |raw| - 8)
  }

  function CrcOf(raw: seq<byte>): uint32
    requires |raw| >= OVERHEAD_BYTES
  {
    ReadLe32(raw, |raw| - 4)
  }

  predicate CrcMatches(address: SafetyAddress, raw: seq<byte>)
    requires |raw| >= OVERHEAD_BYTES
  {
    CrcOf(raw) == BodyCrc(address, Body(PayloadOf(raw), StatusOf(raw), NumberOf(raw)))
  }

  /** Parsing is the inverse of layout: the body a receiver rebuilds from the fields is the
      transmitted prefix itself, and a frame yields back exactly the fields it was built from. */
  lemma ParsedBody(raw: seq<byte>)
    requires |raw| >= OVERHEAD_BYTES
    ensures Body(PayloadOf(raw), StatusOf(raw), NumberOf(raw)) == raw[..|raw| - 4]
  {
    hide Le32;
    hide ReadLe32;
    var n := |raw| - 8;
    ReadOfLe32(NumberOf(raw));
    ReadSlice(raw, n);
    Crc32.ReadInjective(Le32(NumberOf(raw)), raw[n..n + 4]);
    assert raw[..|raw| - 4] == raw[..n - 1] + [raw[n - 1]] + raw[n..n + 4];
  }

  lemma ParsedFrame(address: SafetyAddress, payload: seq<byte>, status: byte, number: uint32)
    ensures var raw := Frame(address, payload, status, number);
            PayloadOf(raw) == payload && StatusOf(raw) == status && NumberOf(raw) == number && CrcMatches(address, raw)
  {
    hide Le32;
    hide ReadLe32;
    hide BodyCrc;
    var raw := Frame(address, payload, status, number);
    var body := Body(payload, status, number);
    var k := |payload| + 1;
    assert raw[k..k + 4] == Le32(number) && raw[k + 4..k + 8] == Le32(BodyCrc(address, body));
    ReadField32(raw, k, number);
    ReadField32(raw, k + 4, BodyCrc(address, body));
  }

  /** A frame byte by byte: payload, status, then number and checksum with the low byte first. */
  lemma FrameBytes(address: SafetyAddress, payload: seq<byte>, status: byte, number: uint32)
    ensures var raw, n := Frame(address, payload, status, number), |payload|;
            var crc := BodyCrc(address, raw[..n + 5]);
            && |raw| == n + 9 && raw[..n] == payload && raw[n] == status
            && raw[n + 1] == number % 256 && raw[n + 2] == number / 256 % 256
            && raw[n + 3] == number / 65536 % 256 && raw[n + 4] == number / 16777216
            && raw[n + 5] == crc % 256 && raw[n + 6] == crc / 256 % 256
            && raw[n + 7] == crc / 65536 % 256 && raw[n + 8] == crc / 16777216
  {
    hide BodyCrc;
    var raw, n := Frame(address, payload, status, number), |payload|;
    assert raw[..n + 5] == Body(payload, status, number);
  }

  /** What is hashed behind the transmitted bytes: source, destination and signature, low byte first. */
  lemma HashedBytes(address: SafetyAddress, body: seq<byte>)
    ensures var h, n := Hashed(address, body), |body|;
            && |h| == n + 8 && h[..n] == body
            && h[n] == address.source % 256 && h[n + 1] == address.source / 256
            && h[n + 2] == address.destination % 256 && h[n + 3] == address.destination / 256
            && h[n + 4] == address.signature % 256 && h[n + 5] == address.signature / 256 % 256
            && h[n + 6] == address.signature / 65536 % 256 && h[n + 7] == address.signature / 16777216
  {}

  // ------------------------------------------------------------------ checksum computation

  /** Field by field, without a staging buffer. */
  method ComputeTelegramCrc(address: SafetyAddress, payload: seq<byte>, status: byte, number: uint32, table: seq<Crc32.Word>)
    returns (crc: uint32)
    requires Crc32.IsTable(table)
    ensures crc == BodyCrc(address, Body(payload, status, number))
  {
    hide Crc32.Absorb;
    var register := new Crc32.Register(table);
    var s := register.state;
    register.UpdateSpan(payload);
    register.UpdateByte(status);
    register.UpdateUint32(number);
    Crc32.AbsorbAppend(s, payload, [status]);
    Crc32.AbsorbAppend(s, payload + [status], Le32(number));
    var body := Body(payload, status, number);
    register.UpdateUint16(address.source);
    register.UpdateUint16(address.destination);
    register.UpdateUint32(address.signature);
    Crc32.AbsorbAppend(Crc32.Absorb(s, body), Le16(address.source), Le16(address.destination));
    Crc32.AbsorbAppend(s, body, Link(address));
    Crc32.AbsorbAppend(s, body + Link(address), Le32(address.signature));
    crc := register.Value();
  }

  // ------------------------------------------------------------------ consecutive numbers

  /** The successor of a consecutive number: zero is never used. */
  function Succ(number: uint32): uint32 { if number == 0xFFFF_FFFF then 1 else number + 1 }

  /** The number of the i-th telegram of a sender started at `start`. */
  function NumberAt(start: uint32, i: nat): uint32 {
    if i == 0 then start else Succ(NumberAt(start, i - 1))
  }

  lemma {:induction false} NumberAtClosedForm(start: uint32, i: nat)
    requires start != 0
    ensures NumberAt(start, i) == (start - 1 + i) % 0xFFFF_FFFF + 1
  {
    if i > 0 { NumberAtClosedForm(start, i - 1); }
  }

  /** The numbers repeat with period 2^32 - 1. */
  lemma NumbersRepeat(start: uint32, i: nat, rounds: nat)
    requires start != 0
    ensures NumberAt(start, i + rounds * 0xFFFF_FFFF) == NumberAt(start, i)
  {
    hide NumberAt;
    var n, e := 0xFFFF_FFFF, start - 1 + i;
    NumberAtClosedForm(start, i);
    NumberAtClosedForm(start, i + rounds * n);
    assert e == (e / n) * n + e % n;
    ModUnique(e + rounds * n, n, e / n + rounds, e % n);
  }

  /** Zero is never emitted, except first thing after a restart at zero. */
  lemma {:induction false} EmitsZero(start: uint32, i: nat)
    ensures NumberAt(start, i) == 0 <==> start == 0 && i == 0
  {
    if i > 0 { EmitsZero(start, i - 1); }
  }

  // ------------------------------------------------------------------ sender

  class Buffer {
    const bytes: array<byte>
    var size: nat

    constructor ()
      ensures fresh(bytes) && bytes.Length == MAX_TELEGRAM_BYTES && size == 0
      ensures forall i | 0 <= i < bytes.Length :: bytes[i] == 0
    {
      bytes := new byte[MAX_TELEGRAM_BYTES](_ => 0);
      size := 0;
    }

    ghost predicate Valid()
      reads this
    {
      bytes.Length == MAX_TELEGRAM_BYTES && size <= bytes.Length
    }

    function View(): seq<byte>
      requires size <= bytes.Length
      reads this, bytes
    {
      bytes[..size]
    }
  }

  method WriteUint32Le(bytes: array<byte>, offset: nat, value: uint32)
    requires offset + 4 <= bytes.Length
    modifies bytes
    ensures bytes[..] == old(bytes[..])[..offset] + Le32(value) + old(bytes[..])[offset + 4..]
  {
    bytes[offset] := value % 0x100;
    bytes[offset + 1] := value / 0x100 % 0x100;
    bytes[offset + 2] := value / 0x1_0000 % 0x100;
    bytes[offset + 3] := value / 0x100_0000 % 0x100;
  }

  /** Writing a word after a prefix. */
  lemma Overwritten(prefix: seq<byte>, word: seq<byte>, rest: seq<byte>)
    requires |word| <= |rest|
    ensures var bytes := prefix + rest;
            bytes[..|prefix|] + word + bytes[|prefix| + |word|..] == (prefix + word) + rest[|word|..]
  {}

  method WritePayload(bytes: array<byte>, payload: seq<byte>, status: byte)
    requires |payload| < bytes.Length
    modifies bytes
    ensures bytes[..] == (payload + [status]) + old(bytes[..])[|payload| + 1..]
  {
    for i := 0 to |payload|
      invariant bytes[..i] == payload[..i] && bytes[i..] == old(bytes[i..])
    {
      bytes[i] := payload[i];
    }
    bytes[|payload|] := status;
    assert bytes[..|payload| + 1] == payload + [status];
    assert bytes[|payload| + 1..] == old(bytes[..])[|payload| + 1..];
    assert bytes[..] == bytes[..|payload| + 1] + bytes[|payload| + 1..];
  }

  class SafetySender {
    const address: SafetyAddress
    const table: seq<Crc32.Word>
    var number: uint32

    ghost predicate Valid() {
      Crc32.IsTable(table)
    }

    constructor (address: SafetyAddress, table: seq<Crc32.Word>)
      requires Crc32.IsTable(table)
      ensures Valid() && this.address == address && this.table == table && number == 1 == NumberAt(1, 0)
    {
      this.address := address;
      this.table := table;
      number := 1;
    }

    /** Lays out one frame. Refuses only an oversized payload, and then changes nothing. */
    method Encode(payload: seq<byte>, status: byte, out: Buffer) returns (ok: bool)
      requires Valid() && out.Valid()
      modifies this`number, out, out.bytes
      ensures ok <==> |payload| <= 64
      ensures ok ==> out.Valid() && out.View() == Frame(address, payload, status, old(number)) && number == Succ(old(number))
      ensures ok ==> out.bytes[out.size..] == old(out.bytes[..])[|payload| + OVERHEAD_BYTES..]
      ensures !ok ==> number == old(number) && out.size == old(out.size) && out.bytes[..] == old(out.bytes[..])
    {
      hide Le32;
      hide BodyCrc;
      hide Crc32.IsTable;
      if |payload| > MAX_PAYLOAD_BYTES {
        return false;
      }
      ghost var prior, n := out.bytes[..], |payload|;
      WritePayload(out.bytes, payload, status);
      Overwritten(payload + [status], Le32(number), prior[n + 1..]);
      WriteUint32Le(out.bytes, |payload| + 1, number);
      assert out.bytes[..] == Body(payload, status, number) + prior[n + 5..];
      var crc := ComputeTelegramCrc(address, payload, status, number, table);
      Overwritten(Body(payload, status, number), Le32(crc), prior[n + 5..]);
      WriteUint32Le(out.bytes, |payload| + 5, crc);
      out.size := |payload| + OVERHEAD_BYTES;
      assert out.bytes[..] == Frame(address, payload, status, number) + prior[n + OVERHEAD_BYTES..];
      number := (number + 1) % TWO32;
      if number == 0 {
        number := 1;
      }
      return true;
    }

    method RestartSequence(start: uint32)
      modifies this`number
      ensures number == start
    {
      number := start;
    }
  }
}
