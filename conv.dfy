/** The byte streams of the `uqoa_conv` command: standard input read one byte
    at a time, standard output written one byte at a time, and the big-endian
    64-bit words `put_u64` and `get_u64` move over them. */
module Conv {
  import opened Arith
  import opened StreamSpec

  /** Standard input: the bytes of the stream, the read position, and the `eof`
      flag that `silent_getchar` raises on the first read past the end (which
      is also when `feof(stdin)` becomes true). */
  class Input {
    const data: seq<Byte>
    var pos: nat
    var eof: bool

    ghost predicate Valid()
      reads this
    {
      pos <= |data| && (eof ==> pos == |data|)
    }

    constructor (data: seq<Byte>)
      ensures Valid() && this.data == data && pos == 0 && !eof
    {
      this.data := data;
      pos := 0;
      eof := false;
    }

    /** `silent_getchar`: the next byte, or `(uint8_t)EOF == 0xFF` with `eof` set
        once the stream is exhausted. */
    method GetChar() returns (c: Byte)
      requires Valid()
      modifies this
      ensures Valid()
      ensures old(pos) < |data| ==> c == data[old(pos)] && pos == old(pos) + 1 && eof == old(eof)
      ensures old(pos) == |data| ==> c == 0xFF && pos == |data| && eof
    {
      if pos < |data| {
        c := data[pos];
        pos := pos + 1;
      } else {
        c := 0xFF;
        eof := true;
      }
    }
  }

  /** Standard output: everything written so far. */
  class Output {
    var bytes: seq<Byte>

    constructor ()
      ensures bytes == []
    {
      bytes := [];
    }

    /** `fputc`. */
    method PutChar(b: Byte)
      modifies this
      ensures bytes == old(bytes) + [b]
    {
      bytes := bytes + [b];
    }
  }

  /** The eight bytes `get_u64` sees from position `p`: the stream's own bytes,
      then `0xFF` for every read past the end. */
  function PaddedRead(data: seq<Byte>, p: nat): (bs: seq<Byte>)
    ensures |bs| == 8
    ensures p + 8 <= |data| ==> bs == data[p..p + 8]
  {
    seq(8, i requires 0 <= i < 8 => if p + i < |data| then data[p + i] else 0xFF)
  }

  /** One more byte read by `get_u64` appends a digit without leaving 64 bits. */
  lemma ReadStep(bs: seq<Byte>, i: nat)
    requires i < |bs| == 8
    ensures Digits(256, bs[..i + 1]) == Digits(256, bs[..i]) * 256 + bs[i]
    ensures Digits(256, bs[..i + 1]) < TWO64
  {
    assert bs[..i + 1][..i] == bs[..i];
    DigitsBound(256, bs[..i + 1]);
    PowMonotone(256, i + 1, 8);
    PowFacts();
  }

  /** `put_u64`: writes the top byte of `x` and shifts `x` left by 8, eight times. */
  method PutU64(out: Output, x: UInt64)
    modifies out
    ensures out.bytes == old(out.bytes) + U64Bytes(x)
  {
    var y := x;
    for i := 0 to 8
      invariant y == (x * Pow(256, i)) % TWO64
      invariant out.bytes == old(out.bytes) + U64Bytes(x)[..i]
    {
      U64Shifted(x, i);
      out.PutChar(y / 0x100_0000_0000_0000);
      assert U64Bytes(x)[..i + 1] == U64Bytes(x)[..i] + [U64Bytes(x)[i]];
      y := (y * 256) % TWO64;
    }
    assert U64Bytes(x)[..8] == U64Bytes(x);
  }

  /** `get_u64`: `x = (x << 8) | silent_getchar()`, eight times from 0. The
      shift never overflows, since `x` holds fewer than 8 bytes before it. A
      complete word is the next word of the stream; otherwise `eof` is set. */
  method GetU64(inp: Input) returns (x: UInt64)
    requires inp.Valid()
    modifies inp
    ensures inp.Valid()
    ensures x == U64Value(PaddedRead(inp.data, old(inp.pos)))
    ensures old(inp.pos) + 8 <= |inp.data| ==> inp.pos == old(inp.pos) + 8 && inp.eof == old(inp.eof)
    ensures old(inp.pos) + 8 > |inp.data| ==> inp.pos == |inp.data| && inp.eof
  {
    ghost var p := inp.pos;
    ghost var bs := PaddedRead(inp.data, p);
    x := 0;
    for i := 0 to 8
      invariant inp.Valid()
      invariant x == Digits(256, bs[..i])
      invariant p + i <= |inp.data| ==> inp.pos == p + i && inp.eof == old(inp.eof)
      invariant p + i > |inp.data| ==> inp.pos == |inp.data| && inp.eof
    {
      var c := inp.GetChar();
      ReadStep(bs, i);
      x := x * 256 + c;
    }
    assert bs[..8] == bs;
  }
}
