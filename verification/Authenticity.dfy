/** Which altered or foreign frames the protecting checksum lets through: exact conditions. */
module Authenticity {
  import opened Bits
  import opened Crc32
  import opened Telegram

  function BodyBits(raw: seq<byte>): seq<bool>
    requires |raw| >= OVERHEAD_BYTES
  {
    MessageBits(raw[..|raw| - 4])
  }

  function CrcBits(raw: seq<byte>): Word
    requires |raw| >= OVERHEAD_BYTES
  {
    MessageBits(raw[|raw| - 4..])
  }

  function LinkBits(address: SafetyAddress): Word { MessageBits(Link(address)) }

  function SignatureBits(address: SafetyAddress): Word { ToBits(address.signature, 32) }

  /** The register once everything but the final exclusive or is done. */
  function HashState(address: SafetyAddress, body: seq<bool>): Word {
    Feed(INITIAL, body + LinkBits(address) + SignatureBits(address))
  }

  lemma HashedBits(address: SafetyAddress, body: seq<byte>)
    ensures BodyCrc(address, body) == Finish(HashState(address, MessageBits(body)))
  {
    hide Feed;
    hide MessageBits;
    hide Finish;
    MessageBitsAppend(body, Link(address));
    MessageBitsAppend(body + Link(address), Le32(address.signature));
    var w := Le32(address.signature);
    MessageBitsWord(w[0], w[1], w[2], w[3]);
    ReadOfLe32(address.signature);
    assert w == [w[0], w[1], w[2], w[3]];
  }

  lemma FinishBits(t: Word, c: uint32)
    ensures Finish(t) == c <==> t == Xor(ToBits(c, 32), FINAL_XOR)
  {
    var w: Word := Xor(t, FINAL_XOR);
    BitsOfValue(w);
    Pow2Widths();
    assert Xor(w, FINAL_XOR) == t;
    ValueOfBits(c, 32);
    assert Xor(Xor(ToBits(c, 32), FINAL_XOR), FINAL_XOR) == ToBits(c, 32);
  }

  /** The checksum test, bit by bit. */
  lemma MatchBits(address: SafetyAddress, raw: seq<byte>)
    requires |raw| >= OVERHEAD_BYTES
    ensures CrcMatches(address, raw) <==> HashState(address, BodyBits(raw)) == Xor(CrcBits(raw), FINAL_XOR)
  {
    hide MessageBits;
    hide HashState;
    hide Finish;
    hide BodyCrc;
    hide Body;
    hide CrcOf;
    ParsedBody(raw);
    HashedBits(address, raw[..|raw| - 4]);
    CrcOfBits(raw);
    FinishBits(HashState(address, BodyBits(raw)), CrcOf(raw));
  }

  lemma CrcOfBits(raw: seq<byte>)
    requires |raw| >= OVERHEAD_BYTES
    ensures CrcBits(raw) == ToBits(CrcOf(raw), 32)
  {
    hide MessageBits;
    hide ToBits;
    var n := |raw| - 4;
    assert raw[n..] == [raw[n], raw[n + 1], raw[n + 2], raw[n + 3]];
    MessageBitsWord(raw[n], raw[n + 1], raw[n + 2], raw[n + 3]);
  }

  lemma XorTwice(a: Word, b: Word, f: Word)
    ensures Xor(Xor(a, f), Xor(b, f)) == Xor(a, b)
  {}

  lemma XorDifference(t: Word, u: Word, a: Word, b: Word, f: Word)
    requires u == Xor(b, f)
    ensures t == Xor(a, f) <==> Xor(a, b) == Xor(t, u)
  {
    XorTwice(a, b, f);
    if Xor(a, b) == Xor(t, u) {
      forall i | 0 <= i < 32 ensures t[i] == Xor(a, f)[i] {
        assert Xor(a, b)[i] == Xor(t, u)[i];
      }
    }
  }

  lemma HashDifference(address: SafetyAddress, x: seq<bool>, y: seq<bool>)
    requires |x| == |y|
    ensures Xor(HashState(address, x), HashState(address, y)) == Feed(Zeros(32), Xor(x, y) + Zeros(64))
  {
    hide Feed;
    hide MessageBits;
    var l, g := LinkBits(address), SignatureBits(address);
    assert Xor(INITIAL, INITIAL) == Zeros(32);
    assert Xor(x + l + g, y + l + g) == Xor(x, y) + Zeros(64);
    Superposition(INITIAL, x + l + g, INITIAL, y + l + g);
  }

  /** Exactly which alterations of a genuine frame pass the checksum: those whose change to the
      checksum field is the bit-serial image of their change to the rest. */
  lemma AlterationUndetected(address: SafetyAddress, payload: seq<byte>, status: byte, number: uint32, raw: seq<byte>)
    requires |raw| == |payload| + OVERHEAD_BYTES
    ensures var frame := Frame(address, payload, status, number);
            CrcMatches(address, raw) <==>
            Xor(CrcBits(raw), CrcBits(frame)) == Feed(Zeros(32), Xor(BodyBits(raw), BodyBits(frame)) + Zeros(64))
  {
    hide Feed;
    hide HashState;
    hide CrcMatches;
    hide Frame;
    hide CrcBits;
    hide MessageBits;
    var frame := Frame(address, payload, status, number);
    ParsedFrame(address, payload, status, number);
    MatchBits(address, raw);
    MatchBits(address, frame);
    HashDifference(address, BodyBits(raw), BodyBits(frame));
    XorDifference(HashState(address, BodyBits(raw)), HashState(address, BodyBits(frame)),
                  CrcBits(raw), CrcBits(frame), FINAL_XOR);
  }

  /** No burst of up to 32 bits inside payload, status and number, or inside the checksum field,
      is ever accepted. */
  lemma BurstRejected(address: SafetyAddress, payload: seq<byte>, status: byte, number: uint32, raw: seq<byte>,
                      at: nat, width: nat)
    requires |raw| == |payload| + OVERHEAD_BYTES && raw != Frame(address, payload, status, number)
    requires width <= 32 && DifferOnlyInside(MessageBits(raw), MessageBits(Frame(address, payload, status, number)), at, width)
    requires at + width <= 8 * (|raw| - 4) || 8 * (|raw| - 4) <= at
    ensures !CrcMatches(address, raw)
  {
    hide Feed;
    hide CrcMatches;
    hide MessageBits;
    hide Frame;
    hide BodyBits;
    hide CrcBits;
    var frame := Frame(address, payload, status, number);
    SplitBits(raw);
    SplitBits(frame);
    var x, y, c, d := BodyBits(raw), BodyBits(frame), CrcBits(raw), CrcBits(frame);
    if CrcMatches(address, raw) {
      AlterationUndetected(address, payload, status, number, raw);
      if at + width <= |x| {
        BurstInFront(x, c, y, d, at, width);
        SilentBody(address, x, y, c, at, width);
      } else {
        BurstBehind(x, c, y, d, at, width);
        FeedNothing(x, y);
        XorZero(c, d, Zeros(32));
      }
      MessageBitsInjective(raw, frame);
    }
  }

  lemma SilentBody(address: SafetyAddress, x: seq<bool>, y: seq<bool>, c: Word, at: nat, width: nat)
    requires width <= 32 && DifferOnlyInside(x, y, at, width)
    requires Xor(c, c) == Feed(Zeros(32), Xor(x, y) + Zeros(64))
    ensures x == y
  {
    hide Feed;
    hide MessageBits;
    var tail := LinkBits(address) + SignatureBits(address);
    HashDifference(address, x, y);
    XorZero(HashState(address, x), HashState(address, y), c);
    assert x + LinkBits(address) + SignatureBits(address) == x + tail;
    assert y + LinkBits(address) + SignatureBits(address) == y + tail;
    SameFeed(INITIAL, x, y, tail, at, width);
  }

  lemma SplitBits(raw: seq<byte>)
    requires |raw| >= OVERHEAD_BYTES
    ensures MessageBits(raw) == BodyBits(raw) + CrcBits(raw) && |BodyBits(raw)| == 8 * (|raw| - 4)
  {
    var n := |raw| - 4;
    assert raw == raw[..n] + raw[n..];
    MessageBitsAppend(raw[..n], raw[n..]);
  }

  lemma OutsideWindow(u: seq<bool>, v: seq<bool>, at: nat, width: nat, i: nat)
    requires DifferOnlyInside(u, v, at, width) && i < |u| && (i < at || at + width <= i)
    ensures u[i] == v[i]
  {
    if i < at {
      assert u[..at][i] == v[..at][i];
    } else {
      assert u[at + width..][i - at - width] == v[at + width..][i - at - width];
    }
  }

  /** A burst inside one of two adjacent fields leaves the other alone. */
  lemma BurstInFront(x: seq<bool>, c: Word, y: seq<bool>, d: Word, at: nat, width: nat)
    requires |x| == |y| && DifferOnlyInside(x + c, y + d, at, width) && at + width <= |x|
    ensures c == d && DifferOnlyInside(x, y, at, width)
  {
    var u, v := x + c, y + d;
    forall i | 0 <= i < 32
      ensures c[i] == d[i]
    {
      OutsideWindow(u, v, at, width, |x| + i);
    }
    forall i | 0 <= i < |x| && (i < at || at + width <= i)
      ensures x[i] == y[i]
    {
      OutsideWindow(u, v, at, width, i);
      assert x[i] == u[i] && y[i] == v[i];
    }
    assert x[..at] == y[..at] && x[at + width..] == y[at + width..];
  }

  lemma BurstBehind(x: seq<bool>, c: Word, y: seq<bool>, d: Word, at: nat, width: nat)
    requires |x| == |y| && DifferOnlyInside(x + c, y + d, at, width) && |x| <= at
    ensures x == y
  {
    forall i | 0 <= i < |x|
      ensures x[i] == y[i]
    {
      OutsideWindow(x + c, y + d, at, width, i);
      assert x[i] == (x + c)[i] && y[i] == (y + d)[i];
    }
  }

  lemma XorZero(a: Word, b: Word, c: Word)
    ensures Xor(a, b) == Xor(c, c) <==> a == b
    ensures Xor(a, b) == Zeros(32) <==> a == b
    ensures Xor(c, c) == Zeros(32)
  {
    assert Xor(c, c) == Zeros(32);
    if Xor(a, b) == Zeros(32) {
      forall i | 0 <= i < 32 ensures a[i] == b[i] { assert Xor(a, b)[i] == Zeros(32)[i]; }
    }
    assert Xor(a, a) == Zeros(32);
  }

  lemma SameFeed(s: Word, x: seq<bool>, y: seq<bool>, tail: seq<bool>, at: nat, width: nat)
    requires width <= 32 && DifferOnlyInside(x, y, at, width) && Feed(s, x + tail) == Feed(s, y + tail)
    ensures x == y
  {
    hide Feed;
    hide Unfeed;
    FeedAppend(s, x, tail);
    FeedAppend(s, y, tail);
    FeedReversible(Feed(s, x), tail);
    FeedReversible(Feed(s, y), tail);
    BurstMovesRegister(s, x, y, at, width);
  }

  lemma FeedNothing(x: seq<bool>, y: seq<bool>)
    requires x == y
    ensures Feed(Zeros(32), Xor(x, y) + Zeros(64)) == Zeros(32)
  {
    hide Feed;
    assert Xor(Zeros(32), Zeros(32)) == Zeros(32);
    var z := Xor(x, y) + Zeros(64);
    assert Xor(z, z) == z;
    Superposition(Zeros(32), z, Zeros(32), z);
    XorZero(Feed(Zeros(32), z), Feed(Zeros(32), z), Feed(Zeros(32), z));
  }

  // ------------------------------------------------------------------ untransmitted address

  lemma HashStateTurns(address: SafetyAddress, body: seq<bool>)
    ensures HashState(address, body)
            == Turn(Xor(Turn(Xor(Feed(INITIAL, body), LinkBits(address))), SignatureBits(address)))
  {
    hide Feed;
    hide MessageBits;
    hide Turn;
    var l, g := LinkBits(address), SignatureBits(address);
    FeedAppend(INITIAL, body + l, g);
    FeedAppend(INITIAL, body, l);
    FeedWord(Feed(INITIAL, body), l);
    FeedWord(Turn(Xor(Feed(INITIAL, body), l)), g);
  }

  /** Exactly when a frame made for one address passes at another: the two signatures must differ
      by the image of the difference of the two source/destination pairs. Payload, status and
      number play no part, so the condition can be checked when the addresses are assigned. */
  lemma ForeignFrameAccepted(a: SafetyAddress, b: SafetyAddress, payload: seq<byte>, status: byte, number: uint32)
    ensures CrcMatches(b, Frame(a, payload, status, number)) <==>
            Xor(SignatureBits(a), SignatureBits(b)) == Turn(Xor(LinkBits(a), LinkBits(b)))
  {
    hide Feed;
    hide HashState;
    hide CrcMatches;
    hide Frame;
    hide MessageBits;
    hide Turn;
    hide Unturn;
    var frame := Frame(a, payload, status, number);
    ParsedFrame(a, payload, status, number);
    MatchBits(a, frame);
    MatchBits(b, frame);
    var s := Feed(INITIAL, BodyBits(frame));
    HashStateTurns(a, BodyBits(frame));
    HashStateTurns(b, BodyBits(frame));
    TwoTurns(s, LinkBits(a), SignatureBits(a), LinkBits(b), SignatureBits(b));
  }

  lemma TwoTurns(s: Word, l: Word, g: Word, m: Word, h: Word)
    ensures Turn(Xor(Turn(Xor(s, m)), h)) == Turn(Xor(Turn(Xor(s, l)), g)) <==> Xor(g, h) == Turn(Xor(l, m))
  {
    hide Turn;
    var p, q := Turn(Xor(s, l)), Turn(Xor(s, m));
    TurnInjective(Xor(p, g), Xor(q, h));
    assert Xor(s, m) == Xor(Xor(s, l), Xor(l, m));
    TurnLinear(Xor(s, l), Xor(l, m));
    XorMove(p, g, Turn(Xor(l, m)), h);
  }

  lemma TurnInjective(a: Word, b: Word)
    ensures Turn(a) == Turn(b) <==> a == b
  {
    FeedReversible(a, Zeros(32));
    FeedReversible(b, Zeros(32));
  }

  /** The two cases commissioning cares about: a wrong source or destination alone, and a wrong
      parameter signature alone, are always caught. */
  lemma ForeignFrameRejected(a: SafetyAddress, b: SafetyAddress, payload: seq<byte>, status: byte, number: uint32)
    requires (a.source != b.source || a.destination != b.destination) != (a.signature != b.signature)
    ensures !CrcMatches(b, Frame(a, payload, status, number))
  {
    hide Feed;
    hide CrcMatches;
    hide Frame;
    hide MessageBits;
    ForeignFrameAccepted(a, b, payload, status, number);
    XorZero(SignatureBits(a), SignatureBits(b), Zeros(32));
    XorZero(LinkBits(a), LinkBits(b), Zeros(32));
    TurnInjective(Xor(LinkBits(a), LinkBits(b)), Zeros(32));
    TurnLinear(Zeros(32), Zeros(32));
    XorZero(Turn(Zeros(32)), Turn(Zeros(32)), Turn(Zeros(32)));
    Pow2Widths();
    if a.signature == b.signature {
      if LinkBits(a) == LinkBits(b) {
        MessageBitsInjective(Link(a), Link(b));
        LinkDetermines(a, b);
      }
    } else if SignatureBits(a) == SignatureBits(b) {
      ToBitsInjective(a.signature, b.signature, 32);
    }
  }

  lemma LinkDetermines(a: SafetyAddress, b: SafetyAddress)
    requires Link(a) == Link(b)
    ensures a.source == b.source && a.destination == b.destination
  {
    assert Link(a)[0] == Link(b)[0] && Link(a)[1] == Link(b)[1] && Link(a)[2] == Link(b)[2] && Link(a)[3] == Link(b)[3];
  }

  function WordValue(w: Word): uint32 {
    BitsOfValue(w);
    Pow2Widths();
    Value(w)
  }

  /** The signature that makes a receiver at another source and destination take frames meant for `a`. */
  function CollidingSignature(a: SafetyAddress, source: uint16, destination: uint16): uint32 {
    WordValue(Xor(SignatureBits(a), Turn(Xor(LinkBits(a), LinkBits(SafetyAddress(source, destination, 0))))))
  }

  /** Every address has its impostors: at each source and destination exactly one signature lets the
      frames of `a` through, the same one for every payload, status and number. It is a's own signature
      exactly when source and destination are a's own. */
  lemma ForeignCollision(a: SafetyAddress, b: SafetyAddress, payload: seq<byte>, status: byte, number: uint32)
    ensures CrcMatches(b, Frame(a, payload, status, number)) <==>
            b.signature == CollidingSignature(a, b.source, b.destination)
    ensures CollidingSignature(a, b.source, b.destination) == a.signature <==>
            a.source == b.source && a.destination == b.destination
  {
    hide Feed;
    hide CrcMatches;
    hide Frame;
    hide MessageBits;
    hide Turn;
    CollisionBits(a, b, payload, status, number);
    var c := b.(signature := a.signature);
    CollisionBits(a, c, payload, status, number);
    if a.source == b.source && a.destination == b.destination {
      ParsedFrame(a, payload, status, number);
    } else {
      ForeignFrameRejected(a, c, payload, status, number);
    }
  }

  lemma CollisionBits(a: SafetyAddress, b: SafetyAddress, payload: seq<byte>, status: byte, number: uint32)
    ensures CrcMatches(b, Frame(a, payload, status, number)) <==>
            b.signature == CollidingSignature(a, b.source, b.destination)
  {
    hide Feed;
    hide CrcMatches;
    hide Frame;
    hide MessageBits;
    hide Turn;
    ForeignFrameAccepted(a, b, payload, status, number);
    assert LinkBits(b) == LinkBits(SafetyAddress(b.source, b.destination, 0));
    var g, h, t := SignatureBits(a), SignatureBits(b), Turn(Xor(LinkBits(a), LinkBits(b)));
    var w: Word := Xor(g, t);
    XorSwap(g, h, t);
    BitsOfValue(w);
    Pow2Widths();
    ValueOfBits(b.signature, 32);
  }

  lemma XorSwap(g: Word, h: Word, t: Word)
    ensures Xor(g, h) == t <==> h == Xor(g, t)
  {
    if Xor(g, h) == t { assert Xor(g, Xor(g, h)) == h; }
    if h == Xor(g, t) { assert Xor(g, Xor(g, t)) == t; }
  }

  /** For a fixed source and destination, the one signature under which a body has checksum c. */
  function SignatureFor(source: uint16, destination: uint16, body: seq<byte>, c: uint32): uint32 {
    var l := LinkBits(SafetyAddress(source, destination, 0));
    WordValue(Xor(Turn(Xor(Feed(INITIAL, MessageBits(body)), l)), Unturn(Xor(ToBits(c, 32), FINAL_XOR))))
  }

  lemma UniqueSignature(address: SafetyAddress, body: seq<byte>, c: uint32)
    ensures BodyCrc(address, body) == c <==>
            address.signature == SignatureFor(address.source, address.destination, body, c)
  {
    hide Feed;
    hide Unfeed;
    hide MessageBits;
    hide Finish;
    var t: Word := Xor(ToBits(c, 32), FINAL_XOR);
    HashedBits(address, body);
    FinishBits(HashState(address, MessageBits(body)), c);
    HashStateTurns(address, MessageBits(body));
    var p := Turn(Xor(Feed(INITIAL, MessageBits(body)), LinkBits(address)));
    var g := SignatureBits(address);
    assert LinkBits(address) == LinkBits(SafetyAddress(address.source, address.destination, 0));
    FeedReversible(t, Zeros(32));
    TurnInjective(Xor(p, g), Unturn(t));
    var w: Word := Xor(p, Unturn(t));
    assert Xor(p, g) == Unturn(t) <==> g == w by {
      if Xor(p, g) == Unturn(t) { assert Xor(p, Xor(p, g)) == g; }
      assert Xor(p, w) == Unturn(t);
    }
    BitsOfValue(w);
    Pow2Widths();
    ValueOfBits(address.signature, 32);
  }
}
