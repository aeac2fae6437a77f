/** Little-endian wire words, and the two byte streams the codecs run over. */
module Wire {
  type Byte = b: int | 0 <= b < 256

  const TWO_TO_32 := 0x1_0000_0000

  type Word = n: nat | n < TWO_TO_32

  /** A read either yields a value and the bytes that are left, fails after consuming
      some bytes (the rest is what a later read would see), or panics. */
  datatype Got<+T> = Ok(val: T, rest: seq<Byte>) | Err(rest: seq<Byte>) | Crash

  function Pow256(w: nat): (p: nat)
    ensures p > 0
  {
    if w == 0 then 1 else 256 * Pow256(w - 1)
  }

  /** The `w` least significant bytes of `n`, least significant first. */
  function LE(w: nat, n: nat): (bs: seq<Byte>)
    ensures |bs| == w
  {
    if w == 0 then [] else [n % 256] + LE(w - 1, n / 256)
  }

  function UnLE(bs: seq<Byte>): nat
  {
    if bs == [] then 0 else bs[0] + 256 * UnLE(bs[1..])
  }

  lemma {:induction false} WordRoundTrip(w: nat, n: nat)
    requires n < Pow256(w)
    ensures UnLE(LE(w, n)) == n
  {
    if w > 0 {
      WordRoundTrip(w - 1, n / 256);
      assert LE(w, n)[1..] == LE(w - 1, n / 256);
    }
  }

  lemma {:induction false} BytesRoundTrip(bs: seq<Byte>)
    ensures UnLE(bs) < Pow256(|bs|)
    ensures LE(|bs|, UnLE(bs)) == bs
  {
    if bs != [] {
      hide Pow256;
      BytesRoundTrip(bs[1..]);
      Peel(bs[0], UnLE(bs[1..]));
      Pow256Next(|bs| - 1, UnLE(bs[1..]), bs[0]);
      assert LE(|bs|, UnLE(bs)) == [bs[0]] + LE(|bs| - 1, UnLE(bs[1..]));
    } else {
      Pow256Small();
    }
  }

  lemma Peel(b: Byte, n: nat)
    ensures (b + 256 * n) % 256 == b && (b + 256 * n) / 256 == n
  {
  }

  lemma Pow256Next(w: nat, n: nat, b: Byte)
    requires n < Pow256(w)
    ensures b + 256 * n < Pow256(w + 1)
  {
  }

  lemma Pow256Small()
    ensures Pow256(1) == 0x100 && Pow256(2) == 0x1_0000 && Pow256(4) == TWO_TO_32
    ensures Pow256(8) == 0x1_0000_0000_0000_0000
  {
  }

  function Word32(n: Word): (bs: seq<Byte>)
    ensures |bs| == 4
  {
    LE(4, n)
  }

  function UnWord32(bs: seq<Byte>): (n: Word)
    requires |bs| == 4
  {
    Pow256Small();
    BytesRoundTrip(bs);
    UnLE(bs)
  }

  lemma Word32RoundTrip(n: Word)
    ensures UnWord32(Word32(n)) == n
  {
    Pow256Small();
    WordRoundTrip(4, n);
  }

  lemma UnWord32RoundTrip(bs: seq<Byte>)
    requires |bs| == 4
    ensures Word32(UnWord32(bs)) == bs
  {
    BytesRoundTrip(bs);
  }

  /** io.ReadFull on a byte stream: all `n` bytes, or an error that has eaten what was left. */
  function Take(n: nat, bs: seq<Byte>): Got<seq<Byte>>
  {
    if n <= |bs| then Ok(bs[..n], bs[n..]) else Err([])
  }

  function TakeWord(bs: seq<Byte>): Got<Word>
  {
    match Take(4, bs)
    case Ok(w, rest) => Ok(UnWord32(w), rest)
    case Err(rest) => Err(rest)
    case Crash => Crash
  }

  lemma TakeAppend(a: seq<Byte>, b: seq<Byte>)
    ensures Take(|a|, a + b) == Ok(a, b)
  {
  }

  lemma TakeWordAppend(n: Word, b: seq<Byte>)
    ensures TakeWord(Word32(n) + b) == Ok(n, b)
  {
    TakeAppend(Word32(n), b);
    Word32RoundTrip(n);
  }

  /** bytes.Buffer, write side. */
  class Buffer {
    var data: seq<Byte>

    constructor ()
      ensures data == []
    {
      data := [];
    }

    method Write(bs: seq<Byte>)
      modifies this
      ensures data == old(data) + bs
    {
      data := data + bs;
    }
  }

  /** bytes.Reader (and any io.Reader whose contents are known): a cursor over bytes. */
  class Reader {
    const src: seq<Byte>
    var pos: nat

    ghost predicate Valid()
      reads this
    {
      pos <= |src|
    }

    function Rest(): seq<Byte>
      reads this
      requires Valid()
    {
      src[pos..]
    }

    constructor (bs: seq<Byte>)
      ensures Valid() && src == bs && Rest() == bs
    {
      src := bs;
      pos := 0;
    }

    method ReadFull(n: nat) returns (r: Got<seq<Byte>>)
      requires Valid()
      modifies this
      ensures Valid() && r == Take(n, old(Rest())) && !r.Crash? && Rest() == r.rest
    {
      if n <= |src| - pos {
        assert Rest()[..n] == src[pos..pos + n] && Rest()[n..] == src[pos + n..];
        r := Ok(src[pos..pos + n], src[pos + n..]);
        pos := pos + n;
      } else {
        r := Err([]);
        pos := |src|;
      }
    }

    method ReadWord() returns (r: Got<Word>)
      requires Valid()
      modifies this
      ensures Valid() && r == TakeWord(old(Rest())) && !r.Crash? && Rest() == r.rest
    {
      var w := ReadFull(4);
      r := match w
           case Ok(bs, rest) => Ok(UnWord32(bs), rest)
           case Err(rest) => Err(rest)
           case Crash => Crash;
    }

    /** bytes.Buffer.Next: up to `n` bytes, silently fewer when the buffer runs out. */
    method Next(n: nat) returns (bs: seq<Byte>)
      requires Valid()
      modifies this
      ensures Valid()
      ensures var k := if n <= |old(Rest())| then n else |old(Rest())|;
              bs == old(Rest())[..k] && Rest() == old(Rest())[k..]
    {
      var k := if n <= |src| - pos then n else |src| - pos;
      bs := src[pos..pos + k];
      assert Rest()[..k] == bs && Rest()[k..] == src[pos + k..];
      pos := pos + k;
    }
  }
}
