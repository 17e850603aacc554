/** The 32-byte frame header. */
module NetHeader {

  import opened Wrappers

  const HEADER_SIZE := 32
  const MAGIC: seq<byte> := [66, 82, 69, 90]  // BREZ
  const TWO_TO_THE_32 := 0x1_0000_0000

  /** Four bytes, least significant first. */
  function LittleEndian(n: nat): (b: seq<byte>)
    requires n < TWO_TO_THE_32
    ensures |b| == 4
  {
    [n % 0x100, n / 0x100 % 0x100, n / 0x1_0000 % 0x100, n / 0x100_0000]
  }

  function FromLittleEndian(b: seq<byte>): (n: nat)
    requires |b| == 4
    ensures n < TWO_TO_THE_32
  {
    var b0: int, b1: int, b2: int, b3: int := b[0], b[1], b[2], b[3];
    b0 + 0x100 * b1 + 0x1_0000 * b2 + 0x100_0000 * b3
  }

  lemma LittleEndianRoundTrip(n: nat)
    requires n < TWO_TO_THE_32
    ensures FromLittleEndian(LittleEndian(n)) == n
  {
    var a := n / 0x100;
    var b := a / 0x100;
    assert n / 0x1_0000 == b && n / 0x100_0000 == b / 0x100;
  }

  /** The header a fresh object gives for a payload size: the size is cut to 32 bits. */
  function HeaderFor(size: nat): (h: seq<byte>)
    ensures |h| == HEADER_SIZE
  {
    MAGIC + LittleEndian(size % TWO_TO_THE_32) + seq(24, _ => 0)
  }

  /** The header byte by byte: the letters B, R, E, Z, the size from its least significant byte on, and
      zeros; and a reader takes the size from those bytes of any data that is long enough and begins so. */
  lemma HeaderLayout(size: nat, data: seq<byte>, n: nat)
    requires size < TWO_TO_THE_32
    ensures var h := HeaderFor(size);
            && |h| == 32 && h[0] == 66 && h[1] == 82 && h[2] == 69 && h[3] == 90
            && size == h[4] as int + 256 * h[5] as int + 65536 * h[6] as int + 16777216 * h[7] as int
            && forall i | 8 <= i < 32 :: h[i] == 0
    ensures SizeIn(data) == Some(n) <==>
            && |data| >= 32 && data[0] == 66 && data[1] == 82 && data[2] == 69 && data[3] == 90
            && n == data[4] as int + 256 * data[5] as int + 65536 * data[6] as int + 16777216 * data[7] as int
  {
    LittleEndianRoundTrip(size);
    var h := HeaderFor(size);
    assert h[4..8] == LittleEndian(size);
    if |data| >= 32 {
      assert data[..4] == MAGIC <==> data[0] == 66 && data[1] == 82 && data[2] == 69 && data[3] == 90;
      assert data[4..8] == [data[4], data[5], data[6], data[7]];
    }
  }

  /** The size field of a header, when the data is a header. */
  function SizeIn(data: seq<byte>): (r: Option<nat>) {
    if |data| < HEADER_SIZE || data[..4] != MAGIC then None else Some(FromLittleEndian(data[4..8]))
  }

  /** A header is read back as the size it was made for exactly when that is below 2^32. */
  lemma HeaderRoundTrip(size: nat)
    ensures SizeIn(HeaderFor(size)) == Some(size % TWO_TO_THE_32)
    ensures SizeIn(HeaderFor(size)) == Some(size) <==> size < TWO_TO_THE_32
  {
    var h := HeaderFor(size);
    assert h[..4] == MAGIC && h[4..8] == LittleEndian(size % TWO_TO_THE_32);
    LittleEndianRoundTrip(size % TWO_TO_THE_32);
  }

  class Header {
    var Data: seq<byte>
    var FileSize: nat

    constructor ()
      ensures Data == HeaderFor(0) && FileSize == 0
    {
      Data, FileSize := MAGIC + seq(28, _ => 0), 0;
      new;
      assert LittleEndian(0) == seq(4, _ => 0);
    }

    method Parse(data: seq<byte>) returns (ok: bool)
      modifies this
      ensures ok <==> SizeIn(data).Some?
      ensures ok ==> FileSize == SizeIn(data).value && Data == data
      ensures !ok ==> unchanged(this)
    {
      if |data| < HEADER_SIZE { return false; }
      if data[0] != 66 || data[1] != 82 || data[2] != 69 || data[3] != 90 { return false; }
      assert data[..4] == MAGIC;
      FileSize := FromLittleEndian(data[4..8]);
      Data := data;
      return true;
    }

    method GetHeaderData(size: nat) returns (header: seq<byte>)
      requires |Data| >= 8
      modifies this
      ensures header == Data && |Data| == |old(Data)| && FileSize == size % TWO_TO_THE_32
      ensures old(Data) == HeaderFor(0) ==> header == HeaderFor(size)
      ensures Data[..4] == old(Data)[..4] && Data[4..8] == LittleEndian(FileSize) && Data[8..] == old(Data)[8..]
    {
      FileSize := size % TWO_TO_THE_32;
      Data := Data[..4] + LittleEndian(FileSize) + Data[8..];
      header := Data;
    }
  }
}
