/**
 The 64-bit data word of the MAC table: six address bytes in bits 0 to 47, byte
 0 lowest, and a 16-bit generation stamp above them.
 */
module PackedWord {
  const ETHER_ADDR_LEN := 6
  const STAMPS := 65536
  const WORD := 0x1_0000_0000_0000_0000

  type U8 = x: nat | x < 256
  type U16 = x: nat | x < STAMPS
  type U64 = x: nat | x < WORD
  type Mac = m: seq<U8> | |m| == ETHER_ADDR_LEN witness [0, 0, 0, 0, 0, 0]

  // ---- 64-bit machine operations ----

  function Pow2(k: nat): (r: nat)
    ensures r > 0
  {
    if k == 0 then 1 else 2 * Pow2(k - 1)
  }

  function Shl(x: U64, k: nat): U64 {
    x * Pow2(k) % WORD
  }

  function Shr(x: U64, k: nat): (r: U64)
    ensures r <= x
  {
    if k == 0 then x else Shr(x / 2, k - 1)
  }

  lemma {:induction false} ShrStep(x: U64, k: nat)
    ensures Shr(x, k + 1) == Shr(x, k) / 2
  {
    if k > 0 { ShrStep(x / 2, k - 1); }
  }

  lemma ShrByte(x: U64, k: nat)
    ensures Shr(x, k + 8) == Shr(x, k) / 256
  {
    ShrStep(x, k); ShrStep(x, k + 1); ShrStep(x, k + 2); ShrStep(x, k + 3);
    ShrStep(x, k + 4); ShrStep(x, k + 5); ShrStep(x, k + 6); ShrStep(x, k + 7);
  }

  /** Bitwise or. */
  function Or(a: nat, b: nat): nat
    decreases a + b
  {
    if a == 0 && b == 0 then 0
    else 2 * Or(a / 2, b / 2) + (if a % 2 == 1 || b % 2 == 1 then 1 else 0)
  }

  lemma {:induction false} OrZero(b: nat)
    ensures Or(0, b) == b
  {
    if b > 0 { OrZero(b / 2); }
  }

  /** Where b starts above every bit of a, or is addition. */
  lemma {:induction false} OrDisjoint(a: nat, b: nat, k: nat)
    requires a < Pow2(k)
    ensures Or(a, b * Pow2(k)) == a + b * Pow2(k)
  {
    if k == 0 {
      OrZero(b);
    } else {
      var y := b * Pow2(k - 1);
      assert b * Pow2(k) == 2 * y;
      OrDisjoint(a / 2, b, k - 1);
      if a == 0 && y == 0 {
      } else {
        assert Or(a, 2 * y) == 2 * Or(a / 2, y) + (if a % 2 == 1 then 1 else 0);
      }
    }
  }

  lemma Pow2Byte(k: nat)
    ensures Pow2(k + 8) == 256 * Pow2(k)
  {
    assert Pow2(k + 8) == 2 * Pow2(k + 7) && Pow2(k + 7) == 2 * Pow2(k + 6);
    assert Pow2(k + 6) == 2 * Pow2(k + 5) && Pow2(k + 5) == 2 * Pow2(k + 4);
    assert Pow2(k + 4) == 2 * Pow2(k + 3) && Pow2(k + 3) == 2 * Pow2(k + 2);
    assert Pow2(k + 2) == 2 * Pow2(k + 1) && Pow2(k + 1) == 2 * Pow2(k);
  }

  // ---- the word as a base-256 numeral ----

  /** The word from lane i upwards. */
  ghost function From(mac: Mac, gen: U16, i: nat): nat
    requires i <= ETHER_ADDR_LEN
    decreases ETHER_ADDR_LEN - i
  {
    if i == ETHER_ADDR_LEN then gen else mac[i] + 256 * From(mac, gen, i + 1)
  }

  ghost function Packed(mac: Mac, gen: U16): nat {
    From(mac, gen, 0)
  }

  lemma PackedFits(mac: Mac, gen: U16)
    ensures Packed(mac, gen) < WORD
  {
    assert From(mac, gen, 5) < STAMPS * 0x100;
    assert From(mac, gen, 4) < STAMPS * 0x1_0000;
    assert From(mac, gen, 3) < STAMPS * 0x100_0000;
    assert From(mac, gen, 2) < STAMPS * 0x1_0000_0000;
    assert From(mac, gen, 1) < STAMPS * 0x100_0000_0000;
  }

  /** Byte i of the address is worth 256 to the i, and the stamp sits above the six of them. */
  lemma PackedLayout(mac: Mac, gen: U16)
    ensures Packed(mac, gen) == mac[0] + 0x100 * mac[1] + 0x1_0000 * mac[2] + 0x100_0000 * mac[3]
                                + 0x1_0000_0000 * mac[4] + 0x100_0000_0000 * mac[5] + 0x1_0000_0000_0000 * gen
  {
    assert From(mac, gen, 5) == mac[5] + 0x100 * gen;
    assert From(mac, gen, 4) == mac[4] + 0x100 * mac[5] + 0x1_0000 * gen;
    assert From(mac, gen, 3) == mac[3] + 0x100 * mac[4] + 0x1_0000 * mac[5] + 0x100_0000 * gen;
  }

  /** What lane i of the word holds. */
  function ByteAt(w: U64, i: nat): U8 {
    Shr(w, 8 * i) % 256
  }

  function StampOf(w: U64): U16 {
    Shr(w, 48) % STAMPS
  }

  function MacOf(w: U64): Mac {
    [ByteAt(w, 0), ByteAt(w, 1), ByteAt(w, 2), ByteAt(w, 3), ByteAt(w, 4), ByteAt(w, 5)]
  }

  lemma {:induction false} ShiftedFrom(mac: Mac, gen: U16, i: nat)
    requires i <= ETHER_ADDR_LEN && Packed(mac, gen) < WORD
    ensures Shr(Packed(mac, gen), 8 * i) == From(mac, gen, i)
  {
    if i > 0 {
      ShiftedFrom(mac, gen, i - 1);
      ShrByte(Packed(mac, gen), 8 * (i - 1));
      HighPart(mac[i - 1], From(mac, gen, i));
    }
  }

  lemma ByteOf(mac: Mac, gen: U16, i: nat)
    requires i < ETHER_ADDR_LEN && Packed(mac, gen) < WORD
    ensures ByteAt(Packed(mac, gen), i) == mac[i]
  {
    ShiftedFrom(mac, gen, i);
    LowByte(mac[i], From(mac, gen, i + 1));
  }

  lemma LowByte(b: U8, rest: nat)
    ensures (b + 256 * rest) % 256 == b
  {
  }

  lemma HighPart(b: U8, rest: nat)
    ensures (b + 256 * rest) / 256 == rest
  {
  }

  /** Nothing of the address or of the stamp is lost in the word. */
  lemma UnpackPack(mac: Mac, gen: U16)
    ensures Packed(mac, gen) < WORD
    ensures MacOf(Packed(mac, gen)) == mac && StampOf(Packed(mac, gen)) == gen
  {
    PackedFits(mac, gen);
    var w: U64 := Packed(mac, gen);
    ByteOf(mac, gen, 0);
    ByteOf(mac, gen, 1);
    ByteOf(mac, gen, 2);
    ByteOf(mac, gen, 3);
    ByteOf(mac, gen, 4);
    ByteOf(mac, gen, 5);
    ShiftedFrom(mac, gen, 6);
  }

  lemma {:induction false} UnpackedFrom(w: U64, i: nat)
    requires i <= ETHER_ADDR_LEN
    ensures From(MacOf(w), StampOf(w), i) == Shr(w, 8 * i)
    decreases ETHER_ADDR_LEN - i
  {
    if i < ETHER_ADDR_LEN {
      UnpackedFrom(w, i + 1);
      ShrByte(w, 8 * i);
      assert MacOf(w)[i] == ByteAt(w, i);
      DigitAndRest(Shr(w, 8 * i));
    } else {
      TopFits(w);
    }
  }

  lemma DigitAndRest(x: nat)
    ensures x % 256 + 256 * (x / 256) == x
  {
  }

  /** Past the six bytes only the stamp is left. */
  lemma TopFits(w: U64)
    ensures Shr(w, 48) < STAMPS
  {
    ShrByte(w, 0); ShrByte(w, 8); ShrByte(w, 16); ShrByte(w, 24); ShrByte(w, 32); ShrByte(w, 40);
  }

  /** And every word is the packing of what it unpacks to. */
  lemma PackUnpack(w: U64)
    ensures Packed(MacOf(w), StampOf(w)) == w
  {
    UnpackedFrom(w, 0);
  }

  /** The low part of a word and what is still to go above it. */
  ghost function Joined(low: nat, rest: nat, k: nat): nat {
    low + rest * Pow2(k)
  }

  lemma Product(byte: U8, rest: nat, p: nat)
    ensures (byte + 256 * rest) * p == byte * p + rest * (256 * p)
    ensures 0 <= byte * p <= 255 * p && 0 <= rest * (256 * p)
  {
  }

  lemma Small(x: nat)
    requires x < WORD
    ensures x % WORD == x
  {
  }

  /** Where no bit is shifted out, a shift and an or above everything present is an addition. */
  lemma OrShl(v: nat, x: U64, k: nat)
    requires v < Pow2(k) && x * Pow2(k) < WORD
    ensures Or(v, Shl(x, k)) == v + x * Pow2(k)
  {
    Small(x * Pow2(k));
    OrDisjoint(v, x, k);
  }

  /** A byte shifted to bit k drops in above what is there. */
  lemma PackStep(v: nat, byte: U8, rest: nat, k: nat, word: nat)
    requires v < Pow2(k) && Joined(v, byte + 256 * rest, k) == word < WORD
    ensures Or(v, Shl(byte, k)) < Pow2(k + 8) && Or(v, Shl(byte, k)) <= word
    ensures Joined(Or(v, Shl(byte, k)), rest, k + 8) == word
  {
    Product(byte, rest, Pow2(k));
    Pow2Byte(k);
    OrShl(v, byte, k);
  }

  lemma PackTop(v: nat, gen: U16, k: nat, word: nat)
    requires v < Pow2(k) && Joined(v, gen, k) == word < WORD
    ensures Or(v, Shl(gen, k)) == word
  {
    OrShl(v, gen, k);
  }

  /** mac_table.h mac_table_pack */
  method Pack(mac: Mac, gen: U16) returns (v: U64)
    ensures v == Packed(mac, gen)
  {
    ghost var word := Packed(mac, gen);
    PackedFits(mac, gen);
    v := 0;
    var i := 0;
    while i < ETHER_ADDR_LEN
      invariant 0 <= i <= ETHER_ADDR_LEN
      invariant v < Pow2(8 * i) && Joined(v, From(mac, gen, i), 8 * i) == word
    {
      PackStep(v, mac[i], From(mac, gen, i + 1), 8 * i, word);
      v := Or(v, Shl(mac[i], 8 * i));
      i := i + 1;
    }
    PackTop(v, gen, 8 * i, word);
    v := Or(v, Shl(gen, 8 * ETHER_ADDR_LEN));
  }

  /** mac_table.h mac_table_unpack */
  method Unpack(v: U64, mac: array<U8>) returns (gen: U16)
    requires mac.Length == ETHER_ADDR_LEN
    modifies mac
    ensures mac[..] == MacOf(v) && gen == StampOf(v)
  {
    var i := 0;
    while i < ETHER_ADDR_LEN
      invariant 0 <= i <= ETHER_ADDR_LEN
      invariant forall j :: 0 <= j < i ==> mac[j] == ByteAt(v, j)
    {
      mac[i] := Shr(v, i * 8) % 256;
      i := i + 1;
    }
    gen := Shr(v, 48) % STAMPS;
  }
}
