/** Splitting a save container (a PNG screenshot followed by an LZMA frame)
    back into its screenshot and its scene (MultipleMaidsConverter/Program.cs,
    `BytesEqual` and `ConvertPngToScene`). The end of the screenshot is found by
    scanning for the first `IEND` chunk type; the 4 CRC bytes after it belong
    to the screenshot and everything after them is the frame. */
module Container {
  import opened Common
  import opened Streams
  import opened Lzma

  /** The 8-byte PNG signature. */
  const PngHeader: seq<byte> := [137, 80, 78, 71, 13, 10, 26, 10]

  /** The ASCII chunk type `IEND`. */
  const Iend: seq<byte> := [73, 69, 78, 68]

  /** What reading a container gives: the scene bytes and the screenshot
      bytes, no result, or an exception that escapes. */
  datatype SceneResult =
    | Converted(scene: seq<byte>, screenshot: seq<byte>)
    | NotConverted
    | Threw(failure: Failure)

  /** `BytesEqual`: same length and the same byte at every index. */
  method BytesEqual(a: seq<byte>, b: seq<byte>) returns (eq: bool)
    ensures eq <==> |a| == |b| && forall i :: 0 <= i < |a| ==> a[i] == b[i]
    ensures eq <==> a == b
  {
    if |a| != |b| {
      return false;
    }
    for i := 0 to |a|
      invariant forall j :: 0 <= j < i ==> a[j] == b[j]
    {
      if a[i] != b[i] {
        return false;
      }
    }
    return true;
  }

  predicate HasPngHeader(file: seq<byte>)
  {
    |file| >= 8 && file[..8] == PngHeader
  }

  /** The header buffer after reading up to 8 bytes of `file` into a fresh,
      zero-filled array. */
  function HeaderRead(file: seq<byte>): (buf: seq<byte>)
    ensures |buf| == 8
  {
    var n := Min(8, |file|);
    file[..n] + seq(8 - n, _ => 0)
  }

  /** The padded read matches the signature exactly when the file starts with
      it: the signature has no zero byte, so a short file never passes. */
  lemma HeaderCheckExact(file: seq<byte>)
    ensures HeaderRead(file) == PngHeader <==> HasPngHeader(file)
  {
    if |file| < 8 {
      assert HeaderRead(file)[7] == 0 != PngHeader[7];
    }
  }

  /** `IEND` starts at offset `p`. */
  predicate MatchAt(data: seq<byte>, p: nat)
  {
    p + 4 <= |data| && data[p..p + 4] == Iend
  }

  /** `IEND` at `q + 1` is `IEND` at `q` once the first byte is dropped. */
  lemma MatchShift(data: seq<byte>, q: nat)
    requires |data| > 0
    ensures MatchAt(data, q + 1) <==> MatchAt(data[1..], q)
  {
    if q + 5 <= |data| {
      assert data[1..][q..q + 4] == data[q + 1..q + 5];
    }
  }

  /** The scan: the first offset where `IEND` starts, if any. */
  function FirstIend(data: seq<byte>): (r: Option<nat>)
    ensures r.Some? ==> MatchAt(data, r.value)
    ensures r.Some? ==> forall q: nat :: q < r.value ==> !MatchAt(data, q)
    ensures r.None? ==> forall q: nat :: !MatchAt(data, q)
  {
    if |data| < 4 then None
    else if data[..4] == Iend then Some(0)
    else
      var rest := FirstIend(data[1..]);
      assert !MatchAt(data, 0) by {
        assert data[0..4] == data[..4];
      }
      assert forall q: nat :: q >= 1 ==> (MatchAt(data, q) <==> MatchAt(data[1..], q - 1)) by {
        forall q: nat | q >= 1 ensures MatchAt(data, q) <==> MatchAt(data[1..], q - 1) {
          MatchShift(data, q - 1);
        }
      }
      match rest
      case None => None
      case Some(i) => Some(i + 1)
  }

  /** The first match is the only offset that is a match with none before it. */
  lemma FirstIendIs(data: seq<byte>, p: nat)
    requires MatchAt(data, p)
    requires forall q: nat :: q < p ==> !MatchAt(data, q)
    ensures FirstIend(data) == Some(p)
  {
  }

  /** What the scan leaves behind: the screenshot bytes it copied and the
      stream position after the CRC read. After `IEND` at `p` the CRC read
      gets `k` bytes; when `k < 4` the buffer keeps the last `4 - k` bytes of
      `IEND` and those are written too. */
  function Scan(file: seq<byte>): Option<(seq<byte>, nat)>
  {
    match FirstIend(file)
    case None => None
    case Some(p) =>
      if p + 8 <= |file| then Some((file[..p + 8], p + 8))
      else Some((file + Iend[|file| - (p + 4)..], |file|))
  }

  /** `ConvertPngToScene` on the contents of one file. */
  function PngToScene(c: Coder, file: seq<byte>): SceneResult
  {
    if !HasPngHeader(file) then NotConverted
    else match Scan(file)
      case None => NotConverted
      case Some((shot, pos)) =>
        match Unframe(c, file[pos..])
        case Failure(e) => Threw(e)
        case Success(scene) => Converted(scene, shot)
  }

  /** Copying the bytes before `IEND`, `IEND` itself and a CRC read of
      `crcRead` bytes gives the file up to the CRC, then the stale tail. */
  lemma CopiedBytes(file: seq<byte>, p: nat, crcRead: nat)
    requires MatchAt(file, p)
    requires crcRead == Min(4, |file| - (p + 4))
    ensures file[..p] + Iend + file[p + 4..p + 4 + crcRead] + Iend[crcRead..]
      == if p + 8 <= |file| then file[..p + 8] else file + Iend[|file| - (p + 4)..]
  {
    assert file[..p] + Iend + file[p + 4..p + 4 + crcRead] == file[..p + 4 + crcRead];
  }

  /** The scan's result when `IEND` first starts at `p` and the CRC read
      gets `crcRead` bytes. */
  lemma ScanFound(file: seq<byte>, p: nat, crcRead: nat)
    requires MatchAt(file, p)
    requires forall q: nat :: q < p ==> !MatchAt(file, q)
    requires crcRead == Min(4, |file| - (p + 4))
    ensures Scan(file) ==
      Some((file[..p] + Iend + file[p + 4..p + 4 + crcRead] + Iend[crcRead..], p + 4 + crcRead))
  {
    FirstIendIs(file, p);
    CopiedBytes(file, p, crcRead);
    if p + 8 <= |file| {
      assert crcRead == 4 && Iend[4..] == [];
    } else {
      assert crcRead == |file| - (p + 4);
    }
  }

  /** The search of the scan loop of `ConvertPngToScene`: from offset 0,
      reads 4 bytes at each offset and stops on `IEND`, otherwise copies the
      one byte at the offset and moves one on; a short read ends the search
      with nothing found. */
  method FindEnd(fileStream: InStream, buffer: array<byte>, screenshotStream: OutStream)
    returns (found: bool, position: nat)
    requires fileStream.Valid() && buffer.Length == 4 && screenshotStream.contents == []
    modifies fileStream, buffer, screenshotStream
    ensures fileStream.Valid()
    ensures !found ==> forall q: nat :: !MatchAt(fileStream.data, q)
    ensures found ==> MatchAt(fileStream.data, position)
    ensures found ==> forall q: nat :: q < position ==> !MatchAt(fileStream.data, q)
    ensures found ==> fileStream.position == position + 4 && buffer[..] == Iend
    ensures found ==> screenshotStream.contents == fileStream.data[..position]
  {
    ghost var file := fileStream.data;
    fileStream.position := 0;
    position := 0;
    while true
      invariant fileStream.Valid() && fileStream.position == position
      invariant screenshotStream.contents == file[..position]
      invariant forall q: nat :: q < position ==> !MatchAt(file, q)
      decreases |file| - position
    {
      var bytesRead := fileStream.Read(buffer, 4);
      if bytesRead != 4 {
        return false, position;
      }
      assert buffer[..] == file[position..position + 4];
      var isEnd := BytesEqual(buffer[..], Iend);
      if isEnd {
        return true, position;
      }
      screenshotStream.Write(buffer, 1);
      assert screenshotStream.contents == file[..position + 1];
      position := position + 1;
      fileStream.position := position;
    }
  }

  /** The scan of `ConvertPngToScene`: finds the first `IEND`, then copies it
      and the CRC read after it. */
  method ScanScreenshot(fileStream: InStream) returns (found: bool, screenshot: seq<byte>)
    requires fileStream.Valid()
    modifies fileStream
    ensures fileStream.Valid()
    ensures found <==> Scan(fileStream.data).Some?
    ensures found ==> Scan(fileStream.data) == Some((screenshot, fileStream.position))
  {
    var screenshotStream := new OutStream();
    var buffer := new byte[4](_ => 0);
    var position;
    found, position := FindEnd(fileStream, buffer, screenshotStream);
    if !found {
      NoIendNoScan(fileStream.data);
      return false, [];
    }
    var crcRead := CopyEndChunk(fileStream, buffer, screenshotStream);
    ScanFound(fileStream.data, position, crcRead);
    return true, screenshotStream.contents;
  }

  /** A file without `IEND` has no screenshot end. */
  lemma NoIendNoScan(file: seq<byte>)
    requires forall q: nat :: !MatchAt(file, q)
    ensures Scan(file) == None
  {
    assert FirstIend(file).None?;
  }

  /** The found branch of the scan: copies the `IEND` bytes in the buffer,
      reads the CRC into the same buffer and copies all 4 buffer bytes, so a
      CRC cut short by the end of the file is completed with stale `IEND` bytes. */
  method CopyEndChunk(fileStream: InStream, buffer: array<byte>, screenshotStream: OutStream)
    returns (crcRead: nat)
    requires buffer.Length == 4 && buffer[..] == Iend
    requires fileStream.Valid()
    modifies fileStream, buffer, screenshotStream
    ensures fileStream.Valid()
    ensures crcRead == Min(4, |fileStream.data| - old(fileStream.position))
    ensures fileStream.position == old(fileStream.position) + crcRead
    ensures screenshotStream.contents == old(screenshotStream.contents) + Iend
      + fileStream.data[old(fileStream.position)..fileStream.position] + Iend[crcRead..]
  {
    screenshotStream.Write(buffer, 4);
    crcRead := fileStream.Read(buffer, 4);
    screenshotStream.Write(buffer, 4);
    assert buffer[..4] == buffer[..];
  }

  /** `ConvertPngToScene`: checks the signature, scans for the end of the
      screenshot and decompresses the rest of the file. */
  method ConvertPngToScene(c: Coder, file: seq<byte>) returns (r: SceneResult)
    ensures r == PngToScene(c, file)
  {
    var fileStream := new InStream(file);
    var headerBuffer := new byte[8](_ => 0);
    var _ := fileStream.Read(headerBuffer, 8);
    assert headerBuffer[..] == HeaderRead(file);
    var isPng := BytesEqual(headerBuffer[..], PngHeader);
    HeaderCheckExact(file);
    if !isPng {
      return NotConverted;
    }
    var found, screenshot := ScanScreenshot(fileStream);
    if !found {
      return NotConverted;
    }
    assert fileStream.Remaining() == file[fileStream.position..];
    var scene := Decompress(c, fileStream);
    match scene
    case Failure(e) => r := Threw(e);
    case Success(s) => r := Converted(s, screenshot);
  }

  /** Windows that lie inside a prefix see the same bytes after extension. */
  lemma MatchInPrefix(d: seq<byte>, e: seq<byte>, q: nat)
    requires q + 4 <= |d|
    ensures MatchAt(d + e, q) <==> MatchAt(d, q)
  {
    assert (d + e)[q..q + 4] == d[q..q + 4];
  }

  /** Appending bytes after the first `IEND` does not move it. */
  lemma FirstIendExtend(d: seq<byte>, e: seq<byte>, p: nat)
    requires FirstIend(d) == Some(p)
    ensures FirstIend(d + e) == Some(p)
  {
    MatchInPrefix(d, e, p);
    forall q: nat | q < p
      ensures !MatchAt(d + e, q)
    {
      MatchInPrefix(d, e, q);
    }
    FirstIendIs(d + e, p);
  }

  /** The scanner stops at the first `IEND` after a prefix that holds none,
      whatever follows the CRC, even more `IEND`s or parts of one: no window
      that starts inside the prefix can reach into `IEND` and match, because
      the letter `I` occurs in `IEND` only at its start. */
  lemma ScanAfterPrefix(prefix: seq<byte>, crc: seq<byte>, suffix: seq<byte>)
    requires forall q: nat :: !MatchAt(prefix, q)
    requires |crc| == 4
    ensures FirstIend(prefix + Iend + crc + suffix) == Some(|prefix|)
    ensures Scan(prefix + Iend + crc + suffix) == Some((prefix + Iend + crc, |prefix| + 8))
  {
    var data := prefix + Iend + crc + suffix;
    var n := |prefix|;
    assert data[n..n + 4] == Iend;
    forall q: nat | q < n
      ensures !MatchAt(data, q)
    {
      if q + 4 <= n {
        MatchInPrefix(prefix, Iend + crc + suffix, q);
        assert data == prefix + (Iend + crc + suffix);
      } else {
        assert data[q..q + 4][n - q] == data[n] == 73;
      }
    }
    FirstIendIs(data, n);
    assert data[..n + 8] == prefix + Iend + crc;
  }

  /** A container whose screenshot part ends at its first `IEND` and CRC is
      decoded from the bytes after the CRC alone. */
  lemma PngToSceneAfterPrefix(c: Coder, prefix: seq<byte>, crc: seq<byte>, suffix: seq<byte>)
    requires HasPngHeader(prefix)
    requires forall q: nat :: !MatchAt(prefix, q)
    requires |crc| == 4
    ensures PngToScene(c, prefix + Iend + crc + suffix) ==
      match Unframe(c, suffix)
      case Failure(e) => Threw(e)
      case Success(scene) => Converted(scene, prefix + Iend + crc)
  {
    var file := prefix + Iend + crc + suffix;
    ScanAfterPrefix(prefix, crc, suffix);
    assert file[..8] == prefix[..8];
    assert file[|prefix| + 8..] == suffix;
  }

  /** A file with no `IEND` anywhere gives no scene. */
  lemma NoIendNotConverted(c: Coder, file: seq<byte>)
    requires forall q: nat :: !MatchAt(file, q)
    ensures PngToScene(c, file) == NotConverted
  {
    assert FirstIend(file).None?;
  }

  /** With the first `IEND` at `p` and its CRC complete, the screenshot is the
      first `p + 8` bytes and the stream is left just after the CRC. */
  lemma ScanComplete(file: seq<byte>, p: nat)
    requires FirstIend(file) == Some(p) && p + 8 <= |file|
    ensures Scan(file) == Some((file[..p + 8], p + 8))
  {
  }

  /** A signed file is decoded from wherever the scan leaves the stream. */
  lemma PngToSceneOfScan(c: Coder, file: seq<byte>, shot: seq<byte>, pos: nat)
    requires HasPngHeader(file)
    requires Scan(file) == Some((shot, pos))
    ensures pos <= |file|
    ensures PngToScene(c, file) ==
      match Unframe(c, file[pos..])
      case Failure(e) => Threw(e)
      case Success(scene) => Converted(scene, shot)
  {
  }

  /** A converted file starts with the signature and holds an `IEND`, first at `p`. */
  lemma ConvertedHasEnd(c: Coder, file: seq<byte>, scene: seq<byte>, shot: seq<byte>)
    returns (p: nat)
    requires PngToScene(c, file) == Converted(scene, shot)
    ensures HasPngHeader(file) && FirstIend(file) == Some(p)
  {
    p := FirstIend(file).value;
  }

  /** A converted file whose first `IEND` is at `p` has a complete CRC and a
      frame of at least 13 bytes after it, and the frame decodes to the scene. */
  lemma ConvertedAt(c: Coder, file: seq<byte>, scene: seq<byte>, shot: seq<byte>, p: nat)
    requires HasPngHeader(file) && FirstIend(file) == Some(p)
    requires PngToScene(c, file) == Converted(scene, shot)
    ensures p + 8 + 13 <= |file| && shot == file[..p + 8]
    ensures Unframe(c, file[p + 8..]) == Success(scene)
  {
    if p + 13 > |file| {
      ShortPayloadThrows(c, file);
    } else {
      ScanComplete(file, p);
      PngToSceneOfScan(c, file, file[..p + 8], p + 8);
    }
  }

  /** A converted file is exactly its screenshot followed by a frame: the
      screenshot ends 8 bytes after the first `IEND` (at the returned `p`),
      and the frame is every byte after that. */
  lemma ConvertedSplitsFile(c: Coder, file: seq<byte>, scene: seq<byte>, shot: seq<byte>)
    returns (p: nat)
    requires PngToScene(c, file) == Converted(scene, shot)
    ensures HasPngHeader(file) && FirstIend(file) == Some(p)
    ensures p + 8 + 13 <= |file|
    ensures shot == file[..p + 8] && shot + file[p + 8..] == file
    ensures Unframe(c, file[p + 8..]) == Success(scene)
  {
    p := ConvertedHasEnd(c, file, scene, shot);
    ConvertedAt(c, file, scene, shot, p);
    assert file[..p + 8] + file[p + 8..] == file;
  }

  /** A PNG with fewer than 5 bytes after its first `IEND` and CRC (an
      ordinary screenshot has none) makes the frame reader throw. The
      exception is not caught, so it ends the whole conversion run. */
  lemma ShortPayloadThrows(c: Coder, file: seq<byte>)
    requires HasPngHeader(file)
    requires FirstIend(file).Some? && |file| < FirstIend(file).value + 8 + 5
    ensures PngToScene(c, file) == Threw(InputTooShort)
  {
    var p := FirstIend(file).value;
    if p + 8 <= |file| {
      ScanComplete(file, p);
      PngToSceneOfScan(c, file, file[..p + 8], p + 8);
      assert |file[p + 8..]| < 5;
    } else {
      var shot := file + Iend[|file| - (p + 4)..];
      assert Scan(file) == Some((shot, |file|));
      PngToSceneOfScan(c, file, shot, |file|);
      assert file[|file|..] == [];
    }
  }

  /** Writing a screenshot that ends with its first `IEND` chunk, then the
      frame of a scene, and reading the file back gives the same scene and
      screenshot, provided the LZMA library inverts its own encoding. */
  lemma ContainerRoundTrip(c: Coder, shot: seq<byte>, raw: seq<byte>)
    requires HasPngHeader(shot)
    requires |shot| >= 8 && FirstIend(shot) == Some(|shot| - 8)
    requires |raw| < TwoTo63 && Inverts(c, raw)
    ensures PngToScene(c, shot + Frame(c, raw)) == Converted(raw, shot)
  {
    var frame := Frame(c, raw);
    var file := shot + frame;
    var p := |shot| - 8;
    FirstIendExtend(shot, frame, p);
    assert file[..8] == shot[..8];
    assert file[..p + 8] == shot;
    ScanComplete(file, p);
    PngToSceneOfScan(c, file, shot, p + 8);
    assert file[p + 8..] == frame;
    UnframeFrame(c, raw);
  }
}
