/** The compressed-payload frame of a save container (MultipleMaidsConverter/LZMA.cs):
    5 LZMA property bytes, the uncompressed length as 8 bytes least significant
    first, then the compressed body. The LZMA coder itself is the SevenZip
    library and is seen here only at its interface, as the `Coder` value. */
module Lzma {
  import opened Common
  import opened Streams
  import opened Arith

  /** The encoder parameter table set on every encoder. */
  datatype EncoderConfig = EncoderConfig(
    dictionarySize: nat,
    posStateBits: nat,
    litContextBits: nat,
    litPosBits: nat,
    algorithm: nat,
    numFastBytes: nat,
    matchFinder: string,
    endMarker: bool)

  const Dictionary: nat := 0x80_0000

  /** The one parameter table every call of `Compress` uses. */
  const Table: EncoderConfig := EncoderConfig(Dictionary, 2, 3, 0, 2, 128, "bt4", false)

  /** The LZMA properties block is always 5 bytes long. */
  type Props = s: seq<byte> | |s| == 5 witness [0, 0, 0, 0, 0]

  /** The SevenZip LZMA library, at the interface the converter uses. */
  datatype Coder = Coder(
    // `SetCoderProperties` followed by `WriteCoderProperties`
    writeProperties: EncoderConfig -> Props,
    // `Encoder.Code`: the compressed body of the input
    encode: (EncoderConfig, seq<byte>) -> seq<byte>,
    // `SetDecoderProperties` accepts the block (otherwise it throws)
    acceptsProperties: Props -> bool,
    // `Decoder.Code(input, compressedSize, outSize)`; None when it throws
    decode: (Props, seq<byte>, int, int) -> Option<seq<byte>>)

  /** The library decodes what it encoded under the fixed table. */
  ghost predicate Inverts(c: Coder, raw: seq<byte>)
  {
    var props := c.writeProperties(Table);
    var body := c.encode(Table, raw);
    c.acceptsProperties(props) && c.decode(props, body, |body|, |raw|) == Some(raw)
  }

  function Pow256(i: nat): (p: nat)
    ensures p >= 1
  {
    if i == 0 then 1 else 256 * Pow256(i - 1)
  }

  const TwoTo63: int := 0x8000_0000_0000_0000
  const TwoTo64: int := 0x1_0000_0000_0000_0000

  /** The `k` low bytes of `n`, least significant first. */
  function LeBytes(n: nat, k: nat): (r: seq<byte>)
    ensures |r| == k
  {
    if k == 0 then [] else [(n % 256) as byte] + LeBytes(n / 256, k - 1)
  }

  /** The number whose bytes, least significant first, are `bs`. */
  function LeValue(bs: seq<byte>): (v: nat)
    ensures v < Pow256(|bs|)
  {
    if bs == [] then 0 else bs[0] as nat + 256 * LeValue(bs[1..])
  }

  /** A 64-bit pattern read as a two's-complement .NET `long`. */
  function AsInt64(u: nat): (v: int)
    requires u < Pow256(8)
    ensures -TwoTo63 <= v < TwoTo63
    ensures (v - u) % TwoTo64 == 0
  {
    if u < TwoTo63 then u else u - TwoTo64
  }

  lemma Pow256Eight()
    ensures Pow256(8) == TwoTo64
  {
  }

  /** Byte `i` of `LeBytes(n, k)` is `(n >> 8i) & 0xFF`. */
  lemma {:induction false} LeBytesAt(n: nat, k: nat, i: nat)
    requires i < k
    ensures LeBytes(n, k)[i] as int == (n / Pow256(i)) % 256
  {
    if i > 0 {
      LeBytesAt(n / 256, k - 1, i - 1);
      DivDiv(n, 256, Pow256(i - 1));
    }
  }

  /** Writing the low `k` bytes and reading them back gives `n` modulo 256^k. */
  lemma {:induction false} LeValueOfLeBytes(n: nat, k: nat)
    ensures LeValue(LeBytes(n, k)) == n % Pow256(k)
  {
    if k > 0 {
      var bs := LeBytes(n, k);
      assert bs[1..] == LeBytes(n / 256, k - 1);
      LeValueOfLeBytes(n / 256, k - 1);
      ModSplit(n, Pow256(k - 1));
    }
  }

  /** Reading bytes and writing them back gives the same bytes. */
  lemma {:induction false} LeBytesOfLeValue(bs: seq<byte>)
    ensures LeBytes(LeValue(bs), |bs|) == bs
  {
    if bs != [] {
      var v := LeValue(bs);
      assert v % 256 == bs[0] as nat;
      assert v / 256 == LeValue(bs[1..]);
      LeBytesOfLeValue(bs[1..]);
    }
  }

  /** One more byte read contributes its value shifted past the bytes before it. */
  lemma {:induction false} LeValueSnoc(bs: seq<byte>, b: byte)
    ensures LeValue(bs + [b]) == LeValue(bs) + b as nat * Pow256(|bs|)
  {
    if bs != [] {
      var t := bs[1..];
      assert (bs + [b])[1..] == t + [b];
      LeValueSnoc(t, b);
      MulAddShift(LeValue(t), b as nat, Pow256(|t|));
    }
  }

  /** The frame `Compress` produces for `raw`. */
  function Frame(c: Coder, raw: seq<byte>): seq<byte>
  {
    c.writeProperties(Table) + LeBytes(|raw|, 8) + c.encode(Table, raw)
  }

  /** What `Decompress` yields for the bytes `s` from the stream position on. */
  function Unframe(c: Coder, s: seq<byte>): (r: Result<seq<byte>, Failure>)
    ensures |s| < 13 ==> r.Failure?
    ensures r.Success? ==>
      c.decode(s[..5], s[13..], |s| - 13, AsInt64(LeValue(s[5..13]))) == Some(r.value)
  {
    if |s| < 5 then Failure(InputTooShort)
    else if !c.acceptsProperties(s[..5]) then Failure(BadProperties)
    else if |s| < 13 then Failure(CantRead)
    else match c.decode(s[..5], s[13..], |s| - 13, AsInt64(LeValue(s[5..13])))
      case None => Failure(DataError)
      case Some(out) => Success(out)
  }

  /** Unframing a frame recovers the input whenever the library inverts its
      own encoding and the length fits in a non-negative `long`. */
  lemma UnframeFrame(c: Coder, raw: seq<byte>)
    requires |raw| < TwoTo63
    requires Inverts(c, raw)
    ensures Unframe(c, Frame(c, raw)) == Success(raw)
  {
    var f := Frame(c, raw);
    var props := c.writeProperties(Table);
    assert f[..5] == props;
    assert f[5..13] == LeBytes(|raw|, 8);
    assert f[13..] == c.encode(Table, raw);
    LeValueOfLeBytes(|raw|, 8);
    Pow256Eight();
  }

  /** Any 8 length bytes read back into a `long` and written again give the
      same bytes: no two frames share a declared length. */
  lemma LengthBytesRoundTrip(bs: seq<byte>)
    requires |bs| == 8
    ensures LeBytes(AsInt64(LeValue(bs)) % TwoTo64, 8) == bs
  {
    Pow256Eight();
    var u := LeValue(bs);
    assert AsInt64(u) % TwoTo64 == u;
    LeBytesOfLeValue(bs);
  }

  /** `LZMA.Compress`: writes the properties of the fixed table, the input
      length as 8 bytes with byte i equal to `(len >> 8i) & 0xFF`, then the body. */
  method Compress(c: Coder, raw: seq<byte>) returns (framed: seq<byte>)
    ensures |framed| == 13 + |c.encode(Table, raw)|
    ensures framed[..5] == c.writeProperties(Table)
    ensures forall i :: 0 <= i < 8 ==> framed[5 + i] as int == (|raw| / Pow256(i)) % 256
    ensures framed[13..] == c.encode(Table, raw)
    ensures framed == Frame(c, raw)
  {
    var outStream := new OutStream();
    var props := c.writeProperties(Table);
    outStream.WriteBytes(props);
    var fileSize := |raw|;
    for i := 0 to 8
      invariant |outStream.contents| == 5 + i
      invariant outStream.contents[..5] == props
      invariant forall j :: 0 <= j < i ==> outStream.contents[5 + j] == LeBytes(fileSize, 8)[j]
    {
      LeBytesAt(fileSize, 8, i);
      outStream.WriteByte(((fileSize / Pow256(i)) % 256) as byte);
    }
    assert outStream.contents == props + LeBytes(fileSize, 8);
    outStream.WriteBytes(c.encode(Table, raw));
    framed := outStream.contents;
    forall i | 0 <= i < 8
      ensures framed[5 + i] as int == (|raw| / Pow256(i)) % 256
    {
      LeBytesAt(fileSize, 8, i);
    }
  }

  /** `LZMA.Decompress`: reads the 5 property bytes and the 8 length bytes from
      the stream, failing on a short read, then hands the decoder everything
      after them together with its count and the declared length. */
  method Decompress(c: Coder, inStream: InStream) returns (r: Result<seq<byte>, Failure>)
    requires inStream.Valid()
    modifies inStream
    ensures r == Unframe(c, old(inStream.Remaining()))
  {
    ghost var s := inStream.Remaining();
    ghost var start := inStream.position;
    var properties := new byte[5](_ => 0);
    var n := inStream.Read(properties, 5);
    if n != 5 {
      return Failure(InputTooShort);
    }
    var props: Props := properties[..];
    assert props == s[..5];
    if !c.acceptsProperties(props) {
      return Failure(BadProperties);
    }
    var outSize: nat := 0;
    for i := 0 to 8
      invariant inStream.Valid()
      invariant inStream.position == start + 5 + i
      invariant outSize == LeValue(s[5..5 + i])
    {
      var v := inStream.ReadByte();
      if v < 0 {
        return Failure(CantRead);
      }
      // `outSize |= v << 8i`: the shifted byte lies above every bit set so far
      assert s[5..5 + i + 1] == s[5..5 + i] + [v as byte];
      LeValueSnoc(s[5..5 + i], v as byte);
      outSize := outSize + v * Pow256(i);
    }
    var compressedSize := |inStream.data| - inStream.position;
    assert inStream.Remaining() == s[13..];
    var decoded := c.decode(props, inStream.Remaining(), compressedSize, AsInt64(outSize));
    match decoded
    case None => r := Failure(DataError);
    case Some(out) => r := Success(out);
  }
}
