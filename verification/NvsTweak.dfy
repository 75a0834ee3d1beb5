/** Hexadecimal text as Python's hex, hexlify and codecs handle it, and the tweak that encryption and
    decryption derive from a slot address by way of such text. */
module NvsTweak {
  import opened Bytes
  import opened NvsFormat

  // Text is a sequence of digit values 0..15; the letter case plays no part.
  type digit = d: int | 0 <= d < 16

  /** The digits of hex(n)[2:], most significant first. */
  function Hex(n: nat): (s: seq<digit>)
    ensures |s| >= 1
  {
    if n < 16 then [n] else Hex(n / 16) + [n % 16]
  }

  function Digits(d: digit, n: nat): (s: seq<digit>)
    ensures |s| == n
    ensures forall i :: 0 <= i < n ==> s[i] == d
  {
    seq(n, i => d)
  }

  /** Two digits for each byte. */
  function Hexlify(data: seq<byte>): (s: seq<digit>)
    ensures |s| == 2 * |data|
  {
    seq(2 * |data|, i requires 0 <= i < 2 * |data| => if i % 2 == 0 then data[i / 2] / 16 else data[i / 2] % 16)
  }

  /** codecs.decode(text, 'hex'), which needs whole bytes. */
  function Unhexlify(s: seq<digit>): (data: seq<byte>)
    requires |s| % 2 == 0
    ensures |data| == |s| / 2
  {
    seq(|s| / 2, i requires 0 <= i < |s| / 2 => ByteOf(s[2 * i], s[2 * i + 1]))
  }

  function ByteOf(high: digit, low: digit): byte { 16 * high + low }

  lemma {:induction false} HexlifyAt(data: seq<byte>, i: nat)
    requires i < |data|
    ensures Hexlify(data)[2 * i] == data[i] / 16 && Hexlify(data)[2 * i + 1] == data[i] % 16
  {
    assert 2 * i / 2 == i && 2 * i % 2 == 0;
    assert (2 * i + 1) / 2 == i && (2 * i + 1) % 2 == 1;
  }

  lemma {:induction false} UnhexlifyAt(s: seq<digit>, i: nat)
    requires |s| % 2 == 0 && i < |s| / 2
    ensures Unhexlify(s)[i] == ByteOf(s[2 * i], s[2 * i + 1])
  {
  }

  lemma {:induction false} ByteOfDigits(n: nat)
    ensures n % 256 / 16 < 16
    ensures ByteOf(n % 256 / 16, n % 16) == n % 256
    ensures n < 256 ==> ByteOf(n / 16, n % 16) == n
  {
    assert n % 256 % 16 == n % 16;
  }

  lemma {:induction false} HexlifyRoundTrip(data: seq<byte>)
    ensures Unhexlify(Hexlify(data)) == data
  {
    hide Hexlify, Unhexlify, ByteOf;
    forall i | 0 <= i < |data|
      ensures Unhexlify(Hexlify(data))[i] == data[i]
    {
      UnhexlifyAt(Hexlify(data), i);
      HexlifyAt(data, i);
      ByteOfDigits(data[i]);
    }
  }

  /** The pairs of digits in the opposite order; a last odd digit stands alone. */
  function Reversed(s: seq<digit>): (r: seq<digit>)
    ensures |r| == |s|
  {
    if |s| <= 2 then s else Reversed(s[2..]) + s[..2]
  }

  method ReverseHexbytes(addrTmp: seq<digit>) returns (reversed: seq<digit>)
    ensures reversed == Reversed(addrTmp)
  {
    var addr: seq<seq<digit>> := [];
    var i := 0;
    while i < |addrTmp|
      invariant i <= |addrTmp| || i == |addrTmp| + 1
      invariant Reversed(addrTmp) == (if i < |addrTmp| then Reversed(addrTmp[i..]) else []) + JoinReversed(addr)
    {
      var to := if i + 2 <= |addrTmp| then i + 2 else |addrTmp|;
      var pair := addrTmp[i..to];
      assert addrTmp[i..][..to - i] == pair;
      assert i + 2 < |addrTmp| ==> addrTmp[i..][2..] == addrTmp[i + 2..];
      assert (addr + [pair])[..|addr|] == addr;
      addr := addr + [pair];
      i := i + 2;
    }
    reversed := JoinReversed(addr);
  }

  /** ''.join(reversed(parts)). */
  function JoinReversed(parts: seq<seq<digit>>): seq<digit> {
    if parts == [] then [] else parts[|parts| - 1] + JoinReversed(parts[..|parts| - 1])
  }

  const TWEAK_DIGITS := 32

  /** The text of the tweak for an address below 2^128, as both directions build it. */
  function TweakText(addr: nat): (s: seq<digit>)
    requires |Hex(addr)| <= TWEAK_DIGITS
    ensures |s| == TWEAK_DIGITS
  {
    var text := Hex(addr);
    if |text| > 2 then
      var even := if |text| % 2 == 0 then text else [0] + text;
      Reversed(even) + Digits(0, TWEAK_DIGITS - |even|)
    else text + Digits(0, TWEAK_DIGITS - |text|)
  }

  method MakeTweak(addr: nat) returns (tweak: seq<digit>)
    requires |Hex(addr)| <= TWEAK_DIGITS
    ensures tweak == TweakText(addr)
  {
    var text := Hex(addr);
    if |text| > 2 {
      var addrTmp := text;
      if |text| % 2 != 0 {
        addrTmp := [0] + text;
      }
      var tweakTmp := ReverseHexbytes(addrTmp);
      tweak := tweakTmp + Digits(0, TWEAK_DIGITS - |tweakTmp|);
    } else {
      tweak := text + Digits(0, TWEAK_DIGITS - |text|);
    }
  }

  // ----- the tweak is the little-endian address -----

  /** The digits of n, padded to whole bytes. */
  function EvenHex(n: nat): (s: seq<digit>)
    ensures |s| % 2 == 0
  {
    if |Hex(n)| % 2 == 0 then Hex(n) else [0] + Hex(n)
  }

  lemma {:induction false} EvenHexSplit(n: nat)
    requires n >= 256
    ensures EvenHex(n) == EvenHex(n / 256) + [n % 256 / 16, n % 16]
    ensures |EvenHex(n / 256)| >= 2
  {
    assert n / 16 / 16 == n / 256;
    assert Hex(n) == (Hex(n / 256) + [n / 16 % 16]) + [n % 16];
    assert n / 16 % 16 == n % 256 / 16;
  }

  lemma {:induction false} ReversedAppend(s: seq<digit>, a: digit, b: digit)
    requires |s| % 2 == 0
    ensures Reversed(s + [a, b]) == [a, b] + Reversed(s)
  {
    if |s| > 0 {
      ReversedAppend(s[2..], a, b);
      assert (s + [a, b])[2..] == s[2..] + [a, b];
      assert (s + [a, b])[..2] == s[..2];
      if |s| == 2 {
        assert s[2..] == [];
      }
    }
  }

  /** The text of an address below 256^width is at most 2 * width digits long. */
  lemma {:induction false} HexLength(n: nat, width: nat)
    requires width > 0 && n < Pow256(width)
    ensures |EvenHex(n)| <= 2 * width
  {
    if n >= 256 {
      EvenHexSplit(n);
      assert width > 1;
      HexLength(n / 256, width - 1);
    } else if n >= 16 {
      assert Hex(n) == [n / 16] + [n % 16];
    }
  }

  lemma {:induction false} UnhexlifyPair(a: digit, b: digit, rest: seq<digit>)
    requires |rest| % 2 == 0
    ensures Unhexlify([a, b] + rest) == [ByteOf(a, b)] + Unhexlify(rest)
  {
    hide Unhexlify, ByteOf;
    var s := [a, b] + rest;
    forall i | 0 <= i < |s| / 2
      ensures Unhexlify(s)[i] == ([ByteOf(a, b)] + Unhexlify(rest))[i]
    {
      UnhexlifyAt(s, i);
      if i > 0 {
        UnhexlifyAt(rest, i - 1);
        assert s[2 * i] == rest[2 * (i - 1)] && s[2 * i + 1] == rest[2 * (i - 1) + 1];
      }
    }
  }

  lemma {:induction false} UnhexlifyZeros(n: nat)
    ensures Unhexlify(Digits(0, 2 * n)) == Zeros(n)
  {
    forall i | 0 <= i < n
      ensures Unhexlify(Digits(0, 2 * n))[i] == 0
    {
      assert Digits(0, 2 * n)[2 * i] == 0 && Digits(0, 2 * n)[2 * i + 1] == 0;
    }
  }

  lemma {:induction false} OneByteHex(n: nat)
    requires n < 256
    ensures EvenHex(n) == [n / 16, n % 16]
  {
    assert Hex(n) == if n < 16 then [n] else [n / 16] + [n % 16];
  }

  lemma {:induction false} ReversedIsLE(n: nat, width: nat)
    requires width > 0 && n < Pow256(width) && |EvenHex(n)| <= 2 * width
    ensures Unhexlify(Reversed(EvenHex(n)) + Digits(0, 2 * width - |EvenHex(n)|)) == LE(n, width)
    decreases width
  {
    hide EvenHex, Unhexlify, Pow256, LE, ByteOf;
    ByteOfDigits(n);
    LEStep(n, width);
    if n < 256 {
      OneByteHex(n);
      LEZero(width - 1);
      assert n / 256 == 0 && n % 256 == n;
      UnhexlifyZeros(width - 1);
      UnhexlifyPair(n / 16, n % 16, Digits(0, 2 * (width - 1)));
    } else {
      EvenHexSplit(n);
      PowDrops(n, width);
      var high := EvenHex(n / 256);
      ReversedAppend(high, n % 256 / 16, n % 16);
      ReversedIsLE(n / 256, width - 1);
      var rest := Reversed(high) + Digits(0, 2 * (width - 1) - |high|);
      UnhexlifyPair(n % 256 / 16, n % 16, rest);
      assert Reversed(EvenHex(n)) + Digits(0, 2 * width - |EvenHex(n)|) == [n % 256 / 16, n % 16] + rest;
    }
  }

  lemma {:induction false} PowDrops(n: nat, width: nat)
    requires width > 0 && 256 <= n < Pow256(width)
    ensures width > 1 && n / 256 < Pow256(width - 1)
  {
  }

  /** What the tweak text of encrypt_data and decrypt comes to when the address has more than one digit. */
  lemma {:induction false} TweakTextEven(addr: nat)
    requires addr >= 16 && |EvenHex(addr)| <= TWEAK_DIGITS
    ensures TweakText(addr) == Reversed(EvenHex(addr)) + Digits(0, TWEAK_DIGITS - |EvenHex(addr)|)
  {
    assert |Hex(addr)| >= 2;
    if |Hex(addr)| == 2 {
      assert Reversed(EvenHex(addr)) == Hex(addr);
    }
  }

  lemma {:induction false} HexEven(n: nat)
    ensures |Hex(n)| <= |EvenHex(n)| <= |Hex(n)| + 1
  {
  }

  lemma {:induction false} OneDigitTweak(addr: nat)
    requires addr < 16
    ensures |Hex(addr)| == 1
    ensures Unhexlify(TweakText(addr)) == [16 * addr] + Zeros(15)
  {
    hide Unhexlify, Reversed;
    assert [addr] + Digits(0, 31) == [addr, 0] + Digits(0, 2 * 15);
    UnhexlifyPair(addr, 0, Digits(0, 2 * 15));
    UnhexlifyZeros(15);
  }

  lemma {:induction false} OneByteLE(n: byte, width: nat)
    requires width > 0
    ensures LE(n, width) == [n] + Zeros(width - 1)
  {
    LEZero(width - 1);
  }

  /** For which addresses the text path yields the 16-byte little-endian address: all but 1..15,
      whose single digit would land in the wrong half of the byte. */
  lemma {:induction false} TweakIsAddress(addr: nat)
    requires addr < Pow256(16)
    ensures |Hex(addr)| <= TWEAK_DIGITS
    ensures Unhexlify(TweakText(addr)) == LE(addr, 16) <==> addr == 0 || addr >= 16
  {
    hide Pow256, Unhexlify, Reversed, LE, TweakText, EvenHex;
    HexLength(addr, 16);
    HexEven(addr);
    if addr >= 16 {
      ReversedIsLE(addr, 16);
      TweakTextEven(addr);
    } else {
      OneDigitTweak(addr);
      OneByteLE(addr, 16);
      assert Unhexlify(TweakText(addr))[0] == 16 * addr && LE(addr, 16)[0] == addr;
    }
  }

  /** Every slot of a partition of at most 2^32 pages gets its own address as tweak. */
  lemma {:induction false} SlotTweak(page: nat, i: nat)
    requires page < 0x1_0000_0000 && i < MAX_ENTRIES
    ensures |Hex(SlotAddress(page, i))| <= TWEAK_DIGITS
    ensures Unhexlify(TweakText(SlotAddress(page, i))) == Tweak(page, i) == LE(4096 * page + 64 + 32 * i, 16)
    ensures UnLE(Tweak(page, i)) == SlotAddress(page, i)
  {
    Pow256Values();
    TweakIsAddress(SlotAddress(page, i));
    LERoundTrip(SlotAddress(page, i), 16);
  }

  /** No two slots share a tweak. */
  lemma {:induction false} TweakInjective(page: nat, i: nat, page': nat, i': nat)
    requires page < 0x1_0000_0000 && i < MAX_ENTRIES
    requires page' < 0x1_0000_0000 && i' < MAX_ENTRIES
    requires Tweak(page, i) == Tweak(page', i')
    ensures page == page' && i == i'
  {
    SlotTweak(page, i);
    SlotTweak(page', i');
  }

  lemma {:induction false} SlotTextByte(data: seq<byte>, padded: seq<digit>, i: nat, o: nat)
    requires |padded| == 64 && o < 32
    ensures Unhexlify(padded)[o] == ByteOf(padded[2 * o], padded[2 * o + 1])
    ensures ChopSlot(data, i)[o] == PaddedByte(data, 32 * i + o)
    ensures var at := 32 * i + o; at < |data| ==>
      Hexlify(data)[2 * at] == data[at] / 16 && Hexlify(data)[2 * at + 1] == data[at] % 16
  {
    hide Hexlify, Unhexlify, PaddedByte, ByteOf;
    UnhexlifyAt(padded, o);
    if 32 * i + o < |data| {
      HexlifyAt(data, 32 * i + o);
    }
  }

  /** Hexlifying data, cutting 64 digits for one slot, filling up with 'f' and decoding yields the
      slot padded with erased bytes. */
  lemma {:induction false} SlotText(data: seq<byte>, i: nat)
    requires i < NumSlots(|data|)
    ensures var text := Hexlify(data)[64 * i..Min(64 * i + 64, 2 * |data|)];
      Unhexlify(text + Digits(15, 64 - |text|)) == ChopSlot(data, i)
  {
    var text := Hexlify(data)[64 * i..Min(64 * i + 64, 2 * |data|)];
    var padded := text + Digits(15, 64 - |text|);
    forall o | 0 <= o < 32
      ensures Unhexlify(padded)[o] == ChopSlot(data, i)[o]
    {
      hide Unhexlify, ChopSlot, Hexlify;
      var at := 32 * i + o;
      SlotTextByte(data, padded, i, o);
      if at < |data| {
        assert padded[2 * o] == Hexlify(data)[2 * at];
        assert padded[2 * o + 1] == Hexlify(data)[2 * at + 1];
      } else {
        assert padded[2 * o] == 15 && padded[2 * o + 1] == 15;
      }
    }
  }
}
