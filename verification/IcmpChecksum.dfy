/**
 Internet checksums of ICMP messages under NAT. A message is its 16-bit words as
 a little-endian host reads them: type and code, checksum, identifier, sequence
 number, data (an odd last byte padded with zero). Checksum arithmetic does not
 depend on byte order (section 1 of RFC 1071).
 */
module IcmpChecksum {
  import opened Common

  const ECHO_REQUEST := 8
  const ECHO_REPLY := 0
  const U32_RANGE := 0x1_0000_0000

  type U16 = x: nat | x < 0x1_0000

  /** A message: at least the eight header bytes. */
  type Message = ws: seq<U16> | |ws| >= 4 witness [0, 0, 0, 0]

  // ---- the checksum itself ----

  function Sum(ws: seq<U16>): nat {
    if ws == [] then 0 else Sum(ws[..|ws| - 1]) + ws[|ws| - 1]
  }

  /** Addition with end-around carry. */
  function OnesAdd(x: U16, y: U16): U16 {
    if x + y > 0xFFFF then x + y - 0xFFFF else x + y
  }

  function OnesSum(ws: seq<U16>): U16 {
    if ws == [] then 0 else OnesAdd(OnesSum(ws[..|ws| - 1]), ws[|ws| - 1])
  }

  /** Section 1 of RFC 1071: the one's complement sum over the message and its checksum is all ones. */
  ghost predicate Valid(ws: seq<U16>) {
    OnesSum(ws) == 0xFFFF
  }

  /** The checksum computed from scratch: the complement of the sum with a zero checksum field. */
  ghost function Recomputed(ws: Message): U16 {
    0xFFFF - OnesSum(ws[1 := 0])
  }

  /** The one's complement sum is the sum modulo 65535, with 65535 for a zero that is not all zeros. */
  lemma {:induction false} OnesSumIsSum(ws: seq<U16>)
    ensures OnesSum(ws) % 0xFFFF == Sum(ws) % 0xFFFF
    ensures OnesSum(ws) == 0 <==> Sum(ws) == 0
  {
    if ws == [] {
    } else {
      OnesSumIsSum(ws[..|ws| - 1]);
    }
  }

  lemma ValidExactly(ws: seq<U16>)
    ensures Valid(ws) <==> Sum(ws) > 0 && Sum(ws) % 0xFFFF == 0
  {
    OnesSumIsSum(ws);
  }

  lemma {:induction false} SumSet(ws: seq<U16>, i: nat, x: U16)
    requires i < |ws|
    ensures Sum(ws[i := x]) == Sum(ws) - ws[i] + x
  {
    var n := |ws| - 1;
    if i == n {
      assert ws[i := x][..n] == ws[..n];
    } else {
      assert ws[i := x][..n] == ws[..n][i := x];
      SumSet(ws[..n], i, x);
    }
  }

  lemma {:induction false} SumZero(ws: seq<U16>)
    ensures Sum(ws) == 0 <==> forall i :: 0 <= i < |ws| ==> ws[i] == 0
  {
    if ws == [] {
    } else {
      SumZero(ws[..|ws| - 1]);
      assert ws == ws[..|ws| - 1] + [ws[|ws| - 1]];
    }
  }

  // ---- the incremental update ----

  /** One carry folded in, the rest cut off: what the C code stores of a 32-bit value. */
  function FoldOnce(d: nat): U16
    requires d < U32_RANGE
  {
    var f := if d / 0x1_0000 != 0 then d % 0x1_0000 + d / 0x1_0000 else d;
    f % 0x1_0000
  }

  /** encaps_icmp: a signed difference, converted to 32 bits. */
  function EncapsCksum(c: U16, from: U16, to: U16): U16 {
    FoldOnce((c + from - to) % U32_RANGE)
  }

  /** decaps_icmp: the difference is converted first, then added in 32 bits. */
  function DecapsCksum(c: U16, from: U16, to: U16): U16 {
    FoldOnce(((from - to) % U32_RANGE + c) % U32_RANGE)
  }

  /** dp.c, echo reply in place: RFC 1624, section 3, equation 3, for the type going from 8 to 0. */
  function EchoCksum(c: U16): U16 {
    var s := (0xFFFF - c) + (0xFFFF - ECHO_REQUEST) + ECHO_REPLY;
    var s1 := s % 0x1_0000 + s / 0x1_0000;
    var s2 := s1 % 0x1_0000 + s1 / 0x1_0000;
    0xFFFF - s2 % 0x1_0000
  }

  /** Both forms compute one's complement subtraction, negative differences included. */
  lemma UpdateIsDifference(c: U16, from: U16, to: U16)
    ensures DecapsCksum(c, from, to) == EncapsCksum(c, from, to)
    ensures var d := c + from - to;
            EncapsCksum(c, from, to) == if d < 0 then d + 0xFFFF else if d > 0xFFFF then d - 0xFFFF else d
  {
    FoldIs(c + from - to);
    DiffWraps(c, from - to);
  }

  lemma DiffWraps(c: int, d: int)
    ensures (d % U32_RANGE + c) % U32_RANGE == (c + d) % U32_RANGE
  {
    var q, r := d / U32_RANGE, d % U32_RANGE;
    assert c + d == (r + c) + q * U32_RANGE;
  }

  lemma FoldIs(d: int)
    requires -0xFFFF <= d <= 0x1_FFFE
    ensures FoldOnce(d % U32_RANGE) == if d < 0 then d + 0xFFFF else if d > 0xFFFF then d - 0xFFFF else d
  {
    if d < 0 {
      var w := d + U32_RANGE;
      assert d % U32_RANGE == w;
      assert w / 0x1_0000 == 0xFFFF && w % 0x1_0000 == d + 0x1_0000;
    } else {
      assert d % U32_RANGE == d;
      assert d > 0xFFFF ==> d / 0x1_0000 == 1 && d % 0x1_0000 == d - 0x1_0000;
    }
  }

  lemma EchoIsSum(c: U16)
    ensures EchoCksum(c) == if c + 8 >= 0xFFFF then c + 8 - 0xFFFF else c + 8
  {
  }

  // ---- messages ----

  ghost function WithIdent(ws: Message, ident: U16): Message {
    ws[1 := EncapsCksum(ws[1], ws[2], ident)][2 := ident]
  }

  function TypeOf(ws: Message): nat {
    ws[0] % 0x100
  }

  ghost function AsReply(ws: Message): Message
    requires TypeOf(ws) == ECHO_REQUEST
  {
    ws[0 := ws[0] - ECHO_REQUEST][1 := EchoCksum(ws[1])]
  }

  /** A reply keeps its code, identifier, sequence number and data; only the type and the checksum are new. */
  lemma AsReplyKeepsRest(ws: Message)
    requires TypeOf(ws) == ECHO_REQUEST
    ensures var r := AsReply(ws);
            && |r| == |ws| && r[2..] == ws[2..]
            && r[0] % 0x100 == 0 && r[0] / 0x100 == ws[0] / 0x100
            && r[1] == (ws[1] as int + 8) % 0xFFFF
  {
    EchoIsSum(ws[1]);
  }

  /** Translation touches the checksum and the identifier only. */
  lemma WithIdentKeepsRest(ws: Message, ident: U16)
    ensures var r := WithIdent(ws, ident);
            && |r| == |ws| && r[0] == ws[0] && r[2] == ident && r[3..] == ws[3..]
            && r[1] % 0xFFFF == (ws[1] as int + ws[2] - ident) % 0xFFFF
  {
    UpdateIsDifference(ws[1], ws[2], ident);
    SameRemainder(ws[1] + ws[2] - ident);
  }

  ghost predicate AllZero(ws: seq<U16>) {
    forall i :: 0 <= i < |ws| ==> ws[i] == 0
  }

  lemma WithIdentSum(ws: Message, ident: U16)
    ensures Sum(WithIdent(ws, ident)) == Sum(ws) - ws[1] - ws[2] + EncapsCksum(ws[1], ws[2], ident) + ident
  {
    SumSet(ws, 1, EncapsCksum(ws[1], ws[2], ident));
    SumSet(ws[1 := EncapsCksum(ws[1], ws[2], ident)], 2, ident);
  }

  lemma {:induction false} SumCovers(ws: seq<U16>, i: nat, j: nat)
    requires i < j < |ws|
    ensures Sum(ws) >= (ws[i] as int) + ws[j]
  {
    SumSet(ws, i, 0);
    SumSet(ws[i := 0], j, 0);
  }

  /**
   Rewriting the identifier keeps every valid message valid and every invalid one
   invalid; only the all-zero message, which carries no checksum at all, becomes valid.
   */
  lemma RewriteKeepsValidity(ws: Message, ident: U16)
    ensures Valid(WithIdent(ws, ident)) <==> Valid(ws) || (AllZero(ws) && ident != 0)
  {
    var ws' := WithIdent(ws, ident);
    ValidExactly(ws);
    ValidExactly(ws');
    SumZero(ws);
    WithIdentSum(ws, ident);
    UpdateIsDifference(ws[1], ws[2], ident);
    SumCovers(ws, 1, 2);
    var s, d := Sum(ws), ws[1] + ws[2] - ident;
    assert Sum(ws') == s || Sum(ws') == s + 0xFFFF || Sum(ws') == s - 0xFFFF;
    SameRemainder(s);
  }

  lemma SameRemainder(s: int)
    ensures (s + 0xFFFF) % 0xFFFF == s % 0xFFFF && (s - 0xFFFF) % 0xFFFF == s % 0xFFFF
  {
  }

  /** The updated checksum is the one a recomputation gives, up to the two zeros. */
  lemma UpdateIsRecomputation(ws: Message, ident: U16)
    requires Valid(ws)
    ensures var c, r := WithIdent(ws, ident)[1], Recomputed(WithIdent(ws, ident));
            c == r || (c == 0 && r == 0xFFFF) || (c == 0xFFFF && r == 0)
  {
    var ws' := WithIdent(ws, ident);
    RewriteKeepsValidity(ws, ident);
    ValidExactly(ws');
    SumSet(ws', 1, 0);
    OnesSumIsSum(ws'[1 := 0]);
    Complement(Sum(ws'), ws'[1], OnesSum(ws'[1 := 0]));
  }

  lemma Complement(s: nat, c: U16, o: U16)
    requires s % 0xFFFF == 0 && s >= c && o % 0xFFFF == (s - c) % 0xFFFF
    ensures (o + c) % 0xFFFF == 0
  {
    var q, k := s / 0xFFFF, (s - c) / 0xFFFF;
    assert s - c == k * 0xFFFF + o % 0xFFFF;
    assert s == q * 0xFFFF;
  }

  /** Out and back through the translation: the message returns, but for one zero turning into the other. */
  lemma EncapsDecapsRestores(ws: Message, ident: U16)
    ensures var c, back := ws[1], WithIdent(WithIdent(ws, ident), ws[2]);
            && (back == ws <==> !(c == 0 && ws[2] < ident) && !(c == 0xFFFF && ws[2] > ident))
            && back == ws[1 := back[1]]
            && back[1] % 0xFFFF == c % 0xFFFF
  {
    var ws' := WithIdent(ws, ident);
    var back := WithIdent(ws', ws[2]);
    UpdateIsDifference(ws[1], ws[2], ident);
    UpdateIsDifference(ws'[1], ident, ws[2]);
    assert back == ws[1 := back[1]];
  }

  /** The reply to a valid echo request is valid exactly unless every word of it is zero. */
  lemma EchoReplyValidExactly(ws: Message)
    requires TypeOf(ws) == ECHO_REQUEST
    ensures Valid(AsReply(ws)) <==>
              Valid(ws) && !(ws[0] == ECHO_REQUEST && ws[1] == 0xFFF7 && AllZero(ws[2..]))
  {
    var ws' := AsReply(ws);
    ValidExactly(ws);
    ValidExactly(ws');
    SumSet(ws, 0, ws[0] - ECHO_REQUEST);
    SumSet(ws[0 := ws[0] - ECHO_REQUEST], 1, EchoCksum(ws[1]));
    EchoIsSum(ws[1]);
    SumCovers(ws, 0, 1);
    SumZero(ws');
    var s := Sum(ws);
    assert Sum(ws') == s || Sum(ws') == s - 0xFFFF;
    SameRemainder(s);
    assert AllZero(ws') <==> ws'[0] == 0 && ws'[1] == 0 && AllZero(ws[2..]) by {
      assert forall i :: 2 <= i < |ws| ==> ws'[i] == ws[2..][i - 2];
      assert forall i :: 0 <= i < |ws| - 2 ==> ws[2..][i] == ws'[i + 2];
    }
  }

  /** Such a request: identifier, sequence number and data all zero. The reply's receiver sees a wrong checksum. */
  lemma ZeroEchoReplyIsInvalid()
    ensures Valid([8, 0xFFF7, 0, 0]) && AsReply([8, 0xFFF7, 0, 0]) == [0, 0, 0, 0] && !Valid([0, 0, 0, 0])
  {
    var ws: Message := [8, 0xFFF7, 0, 0];
    assert Sum(ws) == 0xFFFF by {
      assert ws[..3] == [8, 0xFFF7, 0] && ws[..3][..2] == [8, 0xFFF7] && [8, 0xFFF7][..1] == [8] && [8][..0] == [];
    }
    ValidExactly(ws);
    EchoReplyValidExactly(ws);
    assert AllZero(ws[2..]);
    assert AsReply(ws) == [0, 0, 0, 0];
  }

  // ---- the routines, on the packet in place ----

  /**
   dp_codec.h encaps_icmp: a NAT port of 0 means none could be had, and the session
   header may find no room in front of the packet, which is rewritten by then.
   */
  method EncapsIcmp(msg: array<U16>, newPortId: U16, headerFits: bool) returns (forward: bool)
    requires msg.Length >= 4
    modifies msg
    ensures forward <==> newPortId != 0 && headerFits
    ensures msg[..] == if newPortId != 0 then WithIdent(old(msg[..]), newPortId) else old(msg[..])
    ensures newPortId != 0 ==> msg[2] == newPortId
    ensures msg[0] == old(msg[0]) && msg[3..] == old(msg[3..])
    ensures forward ==> (Valid(msg[..]) <==> Valid(old(msg[..])) || AllZero(old(msg[..])))
  {
    if newPortId == 0 { return false; }
    RewriteKeepsValidity(msg[..], newPortId);
    WithIdentKeepsRest(msg[..], newPortId);
    var oriIdent := msg[2];
    msg[2] := newPortId;
    msg[1] := EncapsCksum(msg[1], oriIdent, newPortId);
    assert msg[..] == WithIdent(old(msg[..]), newPortId);
    if !headerFits { return false; }
    forward := true;
  }

  /** dp_codec.h decaps_icmp: only echo replies of a known session go through, with the host's own identifier. */
  method DecapsIcmp(msg: array<U16>, session: Option<U16>) returns (forward: bool)
    requires msg.Length >= 4
    modifies msg
    ensures forward <==> TypeOf(old(msg[..])) == ECHO_REPLY && session.Some?
    ensures msg[..] == if forward then WithIdent(old(msg[..]), session.value) else old(msg[..])
    ensures forward ==> msg[2] == session.value
    ensures msg[0] == old(msg[0]) && msg[3..] == old(msg[3..])
    ensures forward && Valid(old(msg[..])) ==> Valid(msg[..])
  {
    if msg[0] % 0x100 != ECHO_REPLY { return false; }
    if session.None? { return false; }
    RewriteKeepsValidity(msg[..], session.value);
    WithIdentKeepsRest(msg[..], session.value);
    UpdateIsDifference(msg[1], msg[2], session.value);
    var ident := msg[2];
    msg[2] := session.value;
    msg[1] := DecapsCksum(msg[1], ident, session.value);
    forward := true;
    assert msg[..] == WithIdent(old(msg[..]), session.value);
  }

  /** dp.c: an echo request to the gateway is answered in the same buffer. */
  method AnswerEcho(msg: array<U16>) returns (answered: bool)
    requires msg.Length >= 4
    modifies msg
    ensures answered <==> TypeOf(old(msg[..])) == ECHO_REQUEST
    ensures msg[..] == if answered then AsReply(old(msg[..])) else old(msg[..])
    ensures answered ==> msg[0] % 0x100 == ECHO_REPLY && msg[0] / 0x100 == old(msg[0]) / 0x100
    ensures msg[2..] == old(msg[2..])
  {
    if msg[0] % 0x100 != ECHO_REQUEST { return false; }
    AsReplyKeepsRest(msg[..]);
    msg[0] := msg[0] - msg[0] % 0x100;
    msg[1] := EchoCksum(msg[1]);
    answered := true;
    assert msg[..] == AsReply(old(msg[..]));
  }
}
