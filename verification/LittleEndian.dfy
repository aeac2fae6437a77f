/** Numbers on the wire, byte by byte: what the words and integers of the codecs are compared with. */
module LittleEndian {
  import opened Wire

  /** Least significant byte first. Division rounds down, so a negative number is its two's complement. */
  function Two(n: int): seq<Byte>
  {
    [n % 256, n / 0x100 % 256]
  }

  function Four(n: int): seq<Byte>
  {
    [n % 256, n / 0x100 % 256, n / 0x1_0000 % 256, n / 0x100_0000 % 256]
  }

  function Eight(n: int): seq<Byte>
  {
    [n % 256, n / 0x100 % 256, n / 0x1_0000 % 256, n / 0x100_0000 % 256,
     n / 0x1_0000_0000 % 256, n / 0x100_0000_0000 % 256, n / 0x1_0000_0000_0000 % 256, n / 0x100_0000_0000_0000 % 256]
  }

  /** The number behind the first bytes. */
  function TwoOf(bs: seq<Byte>): nat
    requires |bs| >= 2
  {
    bs[0] as int + 0x100 * bs[1] as int
  }

  function FourOf(bs: seq<Byte>): nat
    requires |bs| >= 4
  {
    bs[0] as int + 0x100 * bs[1] as int + 0x1_0000 * bs[2] as int + 0x100_0000 * bs[3] as int
  }

  function EightOf(bs: seq<Byte>): nat
    requires |bs| >= 8
  {
    FourOf(bs) + 0x1_0000_0000 * FourOf(bs[4..])
  }

  // ---------------------------------------------------------------- what the codecs compute

  lemma LENext(w: nat, n: nat)
    ensures LE(w + 1, n) == [n % 256] + LE(w, n / 256)
  {
  }

  lemma LETwo(n: nat)
    ensures LE(2, n) == Two(n)
  {
    hide LE;
    LENext(1, n);
    LENext(0, n / 256);
    NoBytes(n / 256 / 256);
  }

  lemma NoBytes(n: nat)
    ensures LE(0, n) == []
  {
  }

  lemma LEFour(n: nat)
    ensures LE(4, n) == Four(n)
  {
    hide LE;
    LENext(3, n);
    LENext(2, n / 256);
    LETwo(n / 256 / 256);
    assert n / 256 / 256 == n / 0x1_0000 && n / 256 / 256 / 256 == n / 0x100_0000;
  }

  lemma LEEight(n: nat)
    ensures LE(8, n) == Eight(n)
  {
    hide LE;
    LENext(7, n);
    LENext(6, n / 256);
    LENext(5, n / 256 / 256);
    LENext(4, n / 256 / 256 / 256);
    var h := n / 0x1_0000_0000;
    assert n / 256 / 256 / 256 / 256 == h && n / 256 / 256 / 256 == n / 0x100_0000 && n / 256 / 256 == n / 0x1_0000;
    LEFour(h);
    assert h / 0x100 == n / 0x100_0000_0000;
    assert h / 0x1_0000 == n / 0x1_0000_0000_0000;
    assert h / 0x100_0000 == n / 0x100_0000_0000_0000;
  }

  /** Dividing by 256 several times over. */
  lemma Nested(n: int)
    ensures n / 256 / 256 == n / 0x1_0000 && n / 256 / 256 / 256 == n / 0x100_0000
    ensures n / 256 / 256 / 256 / 256 == n / 0x1_0000_0000
  {
  }

  /** A multiple of 256 passes through the division of the byte below it. */
  lemma Carry(w: int, q: int)
    ensures (w + 256 * q) % 256 == w % 256 && (w + 256 * q) / 256 == w / 256 + q
  {
  }

  lemma TwoCarry(w: int, q: int)
    ensures Two(w + 0x1_0000 * q) == Two(w)
  {
    Carry(w, 256 * q);
    Carry(w / 256, q);
  }

  lemma FourCarry(w: int, q: int)
    ensures Four(w + 0x1_0000_0000 * q) == Four(w)
  {
    var n := w + 0x1_0000_0000 * q;
    Carry(w, 0x100_0000 * q);
    Carry(w / 256, 0x1_0000 * q);
    Carry(w / 256 / 256, 256 * q);
    Carry(w / 256 / 256 / 256, q);
    Nested(w);
    Nested(n);
  }

  lemma EightCarry(w: int, q: int)
    ensures Eight(w + 0x1_0000_0000_0000_0000 * q) == Eight(w)
  {
    hide Four;
    var n := w + 0x1_0000_0000_0000_0000 * q;
    EightIsFours(w);
    EightIsFours(n);
    FourCarry(w, 0x1_0000_0000 * q);
    FourCarry(w / 0x1_0000_0000, q);
    Halves(w, q);
  }

  lemma Halves(w: int, q: int)
    ensures (w + 0x1_0000_0000_0000_0000 * q) / 0x1_0000_0000 == w / 0x1_0000_0000 + 0x1_0000_0000 * q
  {
  }

  lemma EightIsFours(n: int)
    ensures Eight(n) == Four(n) + Four(n / 0x1_0000_0000)
  {
    var h := n / 0x1_0000_0000;
    assert h / 0x100 == n / 0x100_0000_0000;
    assert h / 0x1_0000 == n / 0x1_0000_0000_0000;
    assert h / 0x100_0000 == n / 0x100_0000_0000_0000;
  }

  lemma WordBytes(n: nat)
    ensures Word32(n % 0x1_0000_0000) == Four(n)
  {
    hide LE, Four;
    LEFour(n % 0x1_0000_0000);
    FourCarry(n % 0x1_0000_0000, n / 0x1_0000_0000);
  }

  lemma UnLENext(bs: seq<Byte>)
    requires bs != []
    ensures UnLE(bs) == bs[0] as int + 256 * UnLE(bs[1..])
  {
  }

  lemma UnLENone()
    ensures UnLE([]) == 0
  {
  }

  lemma UnLETwo(bs: seq<Byte>)
    requires |bs| == 2
    ensures UnLE(bs) == TwoOf(bs)
  {
    hide UnLE;
    UnLENext(bs);
    UnLENext(bs[1..]);
    assert bs[1..][1..] == [];
    UnLENone();
  }

  /** The high half counts 2^16 times, then the high half of eight bytes 2^32 times. */
  lemma UnLEFour(bs: seq<Byte>)
    requires |bs| >= 4
    ensures UnLE(bs) == FourOf(bs) + 0x1_0000_0000 * UnLE(bs[4..])
  {
    hide UnLE;
    var b, c, d := bs[1..], bs[2..], bs[3..];
    assert b[1..] == c && c[1..] == d && d[1..] == bs[4..];
    UnLENext(bs);
    UnLENext(b);
    UnLENext(c);
    UnLENext(d);
  }

  lemma WordOf(bs: seq<Byte>)
    requires |bs| == 4
    ensures UnWord32(bs) == FourOf(bs)
  {
    hide UnLE;
    UnLEFour(bs);
    assert bs[4..] == [];
    UnLENone();
  }

  lemma UnLEEight(bs: seq<Byte>)
    requires |bs| == 8
    ensures UnLE(bs) == EightOf(bs)
  {
    hide UnLE;
    UnLEFour(bs);
    UnLEFour(bs[4..]);
    assert bs[4..][4..] == [];
    UnLENone();
  }

  /** Only the first bytes count. */
  lemma FirstBytes(bs: seq<Byte>, n: nat)
    requires n <= |bs|
    ensures n >= 2 ==> TwoOf(bs[..n]) == TwoOf(bs)
    ensures n >= 4 ==> FourOf(bs[..n]) == FourOf(bs)
    ensures n >= 8 ==> EightOf(bs[..n]) == EightOf(bs)
  {
  }

  lemma TakeWordOf(bs: seq<Byte>)
    ensures TakeWord(bs) == if |bs| < 4 then Err([]) else Ok(FourOf(bs), bs[4..])
  {
    hide UnLE;
    if |bs| >= 4 {
      WordOf(bs[..4]);
      FirstBytes(bs, 4);
    }
  }
}
