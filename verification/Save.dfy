/**
 The save format, and saving and loading through the block store.  Every `f32` of the camera is its
 32-bit pattern; the world has any dimensions whose blocks fit behind the 32-byte header.
 */
module Save {
  import opened Wrappers
  import opened Bytes
  import opened DivMod
  import opened Game
  import Nvme
  import opened NvmeStore
  import opened NvmeLiveness

  type word = x: int | 0 <= x < 0x1_0000_0000

  /** Position, yaw, pitch and vertical field of view, as bit patterns. */
  datatype CameraBits = CameraBits(px: word, py: word, pz: word, yaw: word, pitch: word, vFov: word)

  datatype SaveError = InvalidMagic | VersionMismatch

  const SAVE_SIZE := 1024

  const HEADER := 32

  const MAGIC: seq<byte> := [77, 67, 79, 83]

  const VERSION := 1

  function LeBytes(w: word): (r: seq<byte>)
    ensures |r| == 4
  {
    [w % 256, w / 256 % 256, w / 65536 % 256, w / 16777216]
  }

  function FromLe(b: seq<byte>, at: nat): word
    requires at + 4 <= |b|
  {
    b[at] as int + 256 * b[at + 1] as int + 65536 * b[at + 2] as int + 16777216 * b[at + 3] as int
  }

  lemma LeRoundTrip(w: word)
    ensures FromLe(LeBytes(w), 0) == w
  {
    var q: int := w / 256;
    var r := q / 256;
    assert r == w / 65536 && r / 256 == w / 16777216;
    assert w == 256 * q + w % 256 && q == 256 * r + q % 256 && r == 256 * (r / 256) + r % 256;
  }

  /** Four bytes are the little-endian form of the word they spell. */
  lemma LeInverse(b: seq<byte>, at: nat)
    requires at + 4 <= |b|
    ensures LeBytes(FromLe(b, at)) == b[at..at + 4]
  {
    var w := FromLe(b, at);
    var b1: int, b2: int, b3: int := b[at + 1], b[at + 2], b[at + 3];
    assert w / 256 == b1 + 256 * (b2 + 256 * b3);
    assert w / 65536 == b2 + 256 * b3;
    assert w / 16777216 == b3;
  }

  function Blocks(d: Dims): nat {
    d.x * d.y * d.z
  }

  predicate FitsSave(d: Dims) {
    HEADER + Blocks(d) <= SAVE_SIZE
  }

  /** Running number of block `(x, y, z)` in the order of the file. */
  function BlockIndex(d: Dims, x: nat, y: nat, z: nat): nat {
    (x * d.y + y) * d.z + z
  }

  lemma BlockIndexRange(d: Dims, x: nat, y: nat, z: nat)
    requires x < d.x && y < d.y && z < d.z
    ensures BlockIndex(d, x, y, z) < Blocks(d)
    ensures var i := BlockIndex(d, x, y, z); i % d.z == z && i / d.z % d.y == y && i / d.z / d.y == x
  {
    var r := x * d.y + y;
    DivModUnique(BlockIndex(d, x, y, z), d.z, r, z);
    DivModUnique(r, d.y, x, y);
    MulMono(x + 1, d.x, d.y);
    assert (x + 1) * d.y == x * d.y + d.y;
    MulMono(r + 1, d.x * d.y, d.z);
    assert (r + 1) * d.z == r * d.z + d.z;
  }

  /** Every block number belongs to a block. */
  lemma BlockIndexInverse(d: Dims, i: nat)
    requires i < Blocks(d)
    ensures d.y > 0 && d.z > 0
    ensures 0 <= i / d.z / d.y < d.x && 0 <= i / d.z % d.y < d.y && 0 <= i % d.z < d.z
    ensures BlockIndex(d, i / d.z / d.y, i / d.z % d.y, i % d.z) == i
  {
    SidesPositive(d);
    var r := i / d.z;
    DivBorder(i, d.z, d.x * d.y);
    InverseParts(d, i, r, i % d.z);
  }

  lemma InverseParts(d: Dims, i: nat, r: nat, z: nat)
    requires d.y > 0 && z < d.z && i == r * d.z + z && r < d.x * d.y
    ensures 0 <= r / d.y < d.x && 0 <= r % d.y < d.y && BlockIndex(d, r / d.y, r % d.y, z) == i
  {
    DivBorder(r, d.y, d.x);
    assert (r / d.y) * d.y + r % d.y == r;
  }

  lemma SidesPositive(d: Dims)
    ensures Blocks(d) > 0 ==> d.y > 0 && d.z > 0
  {
    if d.y == 0 { assert d.x * d.y == 0; }
  }

  function BlockByte(world: Game.Blocks, d: Dims, i: nat): byte
    requires HasDims(world, d) && i < Blocks(d)
  {
    BlockIndexInverse(d, i);
    var x, y, z := i / d.z / d.y, i / d.z % d.y, i % d.z;
    if world[x][y][z] then 1 else 0
  }

  function CameraBytes(c: CameraBits): (r: seq<byte>)
    ensures |r| == 24
  {
    LeBytes(c.px) + LeBytes(c.py) + LeBytes(c.pz) + LeBytes(c.yaw) + LeBytes(c.pitch) + LeBytes(c.vFov)
  }

  function Header(c: CameraBits): (r: seq<byte>)
    ensures |r| == HEADER
  {
    MAGIC + [VERSION, 0] + [0, 0] + CameraBytes(c)
  }

  /** The whole file: header, one byte a block, zeros. */
  function Encoded(world: Game.Blocks, d: Dims, c: CameraBits): (r: seq<byte>)
    requires HasDims(world, d) && FitsSave(d)
    ensures |r| == SAVE_SIZE
  {
    Header(c) + seq(Blocks(d), i requires 0 <= i < Blocks(d) => BlockByte(world, d, i))
    + seq(SAVE_SIZE - HEADER - Blocks(d), _ => 0)
  }

  function DecodedWorld(buf: seq<byte>, d: Dims): (w: Game.Blocks)
    requires |buf| == SAVE_SIZE && FitsSave(d)
    ensures HasDims(w, d)
  {
    seq(d.x, x requires 0 <= x < d.x => seq(d.y, y requires 0 <= y < d.y => seq(d.z, z requires 0 <= z < d.z =>
      BlockIndexRange(d, x, y, z); buf[HEADER + BlockIndex(d, x, y, z)] != 0)))
  }

  function DecodedCamera(buf: seq<byte>): CameraBits
    requires |buf| == SAVE_SIZE
  {
    CameraBits(FromLe(buf, 8), FromLe(buf, 12), FromLe(buf, 16), FromLe(buf, 20), FromLe(buf, 24), FromLe(buf, 28))
  }

  function Decoded(buf: seq<byte>, d: Dims): Result<(Game.Blocks, CameraBits), SaveError>
    requires |buf| == SAVE_SIZE && FitsSave(d)
  {
    if buf[0..4] != MAGIC then Err(InvalidMagic)
    else if buf[4] as int + 256 * buf[5] as int != VERSION then Err(VersionMismatch)
    else Ok((DecodedWorld(buf, d), DecodedCamera(buf)))
  }

  // Where the file has what, byte by byte.

  function LittleEndian(w: word): seq<byte> {
    [w % 0x100, w / 0x100 % 0x100, w / 0x1_0000 % 0x100, w / 0x100_0000]
  }

  lemma HeaderLayout(buf: seq<byte>, c: CameraBits)
    requires |buf| == SAVE_SIZE && buf[..32] == Header(c)
    ensures buf[..8] == [0x4D, 0x43, 0x4F, 0x53, 1, 0, 0, 0]
    ensures buf[8..12] == LittleEndian(c.px) && buf[12..16] == LittleEndian(c.py)
    ensures buf[16..20] == LittleEndian(c.pz) && buf[20..24] == LittleEndian(c.yaw)
    ensures buf[24..28] == LittleEndian(c.pitch) && buf[28..32] == LittleEndian(c.vFov)
  {
    assert forall i :: 0 <= i < 32 ==> buf[i] == Header(c)[i];
    assert forall i :: 0 <= i < 24 ==> Header(c)[8 + i] == CameraBytes(c)[i];
  }

  /** The header: MCOS, version 1, two reserved bytes, and the words of the camera. */
  lemma FileHeader(world: Game.Blocks, d: Dims, c: CameraBits)
    requires HasDims(world, d) && FitsSave(d)
    ensures var buf := Encoded(world, d, c);
            && buf[..8] == [0x4D, 0x43, 0x4F, 0x53, 1, 0, 0, 0]
            && buf[8..12] == LittleEndian(c.px) && buf[12..16] == LittleEndian(c.py)
            && buf[16..20] == LittleEndian(c.pz) && buf[20..24] == LittleEndian(c.yaw)
            && buf[24..28] == LittleEndian(c.pitch) && buf[28..32] == LittleEndian(c.vFov)
  {
    HeaderLayout(Encoded(world, d, c), c);
  }

  /** Behind it, one byte a block, z fastest and x slowest. */
  lemma FileBlock(world: Game.Blocks, d: Dims, c: CameraBits, x: nat, y: nat, z: nat)
    requires HasDims(world, d) && FitsSave(d) && x < d.x && y < d.y && z < d.z
    ensures var i := 32 + (x * d.y + y) * d.z + z;
            32 <= i < 1024 && Encoded(world, d, c)[i] == if world[x][y][z] then 1 else 0
  {
    BlockIndexRange(d, x, y, z);
    var k: nat := BlockIndex(d, x, y, z);
    assert Encoded(world, d, c)[32 + k] == BlockByte(world, d, k);
  }

  /** And zeros to the end. */
  lemma FilePadding(world: Game.Blocks, d: Dims, c: CameraBits, i: nat)
    requires HasDims(world, d) && FitsSave(d) && 32 + d.x * d.y * d.z <= i < 1024
    ensures |Encoded(world, d, c)| == 1024 && Encoded(world, d, c)[i] == 0
  {
  }

  /** Which error a file gives: the magic number is checked before the version. */
  lemma DecodedErrors(buf: seq<byte>, d: Dims)
    requires |buf| == SAVE_SIZE && FitsSave(d)
    ensures Decoded(buf, d) == Err(InvalidMagic) <==> buf[..4] != [0x4D, 0x43, 0x4F, 0x53]
    ensures Decoded(buf, d) == Err(VersionMismatch) <==>
              buf[..4] == [0x4D, 0x43, 0x4F, 0x53] && !(buf[4] == 1 && buf[5] == 0)
  {
    assert buf[0..4] == buf[..4];
  }

  // ---------------------------------------------------------------- round trips

  lemma HeaderFields(c: CameraBits, buf: seq<byte>)
    requires |buf| == SAVE_SIZE && buf[..HEADER] == Header(c)
    ensures buf[0..4] == MAGIC && buf[4] == 1 && buf[5] == 0 && DecodedCamera(buf) == c
  {
    var h := Header(c);
    assert buf[0..4] == h[0..4] == MAGIC;
    assert forall i :: 0 <= i < HEADER ==> buf[i] == buf[..HEADER][i];
    LeRoundTrip(c.px); LeRoundTrip(c.py); LeRoundTrip(c.pz);
    LeRoundTrip(c.yaw); LeRoundTrip(c.pitch); LeRoundTrip(c.vFov);
  }

  /** Loading what was saved restores the world and every bit of the camera. */
  lemma DecodeEncode(world: Game.Blocks, d: Dims, c: CameraBits)
    requires HasDims(world, d) && FitsSave(d)
    ensures Decoded(Encoded(world, d, c), d) == Ok((world, c))
  {
    var buf := Encoded(world, d, c);
    assert buf[..HEADER] == Header(c);
    HeaderFields(c, buf);
    forall x, y, z | 0 <= x < d.x && 0 <= y < d.y && 0 <= z < d.z
      ensures DecodedWorld(buf, d)[x][y][z] == world[x][y][z]
    {
      BlockIndexRange(d, x, y, z);
    }
    WorldsAgree(DecodedWorld(buf, d), world, d);
  }

  lemma WorldsAgree(v: Game.Blocks, w: Game.Blocks, d: Dims)
    requires HasDims(v, d) && HasDims(w, d)
    requires forall x, y, z :: 0 <= x < d.x && 0 <= y < d.y && 0 <= z < d.z ==> v[x][y][z] == w[x][y][z]
    ensures v == w
  {
    forall x | 0 <= x < d.x ensures v[x] == w[x] {
      forall y | 0 <= y < d.y ensures v[x][y] == w[x][y] { }
    }
  }

  /** The bytes a save never writes are zero and block bytes are 0 or 1. */
  predicate Canonical(buf: seq<byte>, d: Dims)
    requires |buf| == SAVE_SIZE && FitsSave(d)
  {
    && buf[6] == 0 && buf[7] == 0
    && (forall i :: HEADER <= i < HEADER + Blocks(d) ==> buf[i] <= 1)
    && (forall i :: HEADER + Blocks(d) <= i < SAVE_SIZE ==> buf[i] == 0)
  }

  /** Saving what was loaded gives the same file exactly when the file is canonical. */
  lemma EncodeDecode(buf: seq<byte>, d: Dims)
    requires |buf| == SAVE_SIZE && FitsSave(d) && Decoded(buf, d).Ok?
    ensures var (w, c) := Decoded(buf, d).value; Encoded(w, d, c) == buf <==> Canonical(buf, d)
  {
    var (w, c) := Decoded(buf, d).value;
    var e := Encoded(w, d, c);
    HeaderOfDecoded(buf, c);
    BlocksOfDecoded(buf, d, c);
    var body := HEADER + Blocks(d);
    assert e[..HEADER] == Header(c);
    assert e == buf <==>
           e[..HEADER] == buf[..HEADER] && e[HEADER..body] == buf[HEADER..body] && e[body..] == buf[body..] by {
      Pieces(e, HEADER, body);
      Pieces(buf, HEADER, body);
    }
    assert e[body..] == buf[body..] <==> forall i :: body <= i < SAVE_SIZE ==> buf[i] == 0 by {
      assert forall i :: 0 <= i < SAVE_SIZE - body ==> e[body..][i] == 0 && buf[body..][i] == buf[body + i];
      if e[body..] == buf[body..] {
        forall i | body <= i < SAVE_SIZE ensures buf[i] == 0 { assert buf[i] == buf[body..][i - body]; }
      }
    }
  }

  lemma Pieces(s: seq<byte>, a: nat, b: nat)
    requires a <= b <= |s|
    ensures s == s[..a] + s[a..b] + s[b..]
  {
  }

  lemma BlocksOfDecoded(buf: seq<byte>, d: Dims, c: CameraBits)
    requires |buf| == SAVE_SIZE && FitsSave(d)
    ensures var e, body := Encoded(DecodedWorld(buf, d), d, c), HEADER + Blocks(d);
            e[HEADER..body] == buf[HEADER..body] <==> forall i :: HEADER <= i < body ==> buf[i] <= 1
  {
    var e, body := Encoded(DecodedWorld(buf, d), d, c), HEADER + Blocks(d);
    forall i | HEADER <= i < body
      ensures e[HEADER..body][i - HEADER] == buf[HEADER..body][i - HEADER] <==> buf[i] <= 1
    {
      ByteOfDecoded(buf, d, i - HEADER);
      assert e[i] == BlockByte(DecodedWorld(buf, d), d, i - HEADER);
    }
  }

  lemma ByteOfDecoded(buf: seq<byte>, d: Dims, i: nat)
    requires |buf| == SAVE_SIZE && FitsSave(d) && i < Blocks(d)
    ensures BlockByte(DecodedWorld(buf, d), d, i) == if buf[HEADER + i] != 0 then 1 else 0
  {
    BlockIndexInverse(d, i);
    DecodedCell(buf, d, i / d.z / d.y, i / d.z % d.y, i % d.z);
  }

  lemma DecodedCell(buf: seq<byte>, d: Dims, x: nat, y: nat, z: nat)
    requires |buf| == SAVE_SIZE && FitsSave(d) && x < d.x && y < d.y && z < d.z
    ensures BlockIndex(d, x, y, z) < Blocks(d)
    ensures DecodedWorld(buf, d)[x][y][z] == (buf[HEADER + BlockIndex(d, x, y, z)] != 0)
  {
    BlockIndexRange(d, x, y, z);
  }

  lemma HeaderOfDecoded(buf: seq<byte>, c: CameraBits)
    requires |buf| == SAVE_SIZE && c == DecodedCamera(buf) && buf[0..4] == MAGIC
    requires buf[4] as int + 256 * buf[5] as int == VERSION
    ensures Header(c) == buf[..HEADER] <==> buf[6] == 0 && buf[7] == 0
  {
    var h := Header(c);
    LeInverse(buf, 8); LeInverse(buf, 12); LeInverse(buf, 16);
    LeInverse(buf, 20); LeInverse(buf, 24); LeInverse(buf, 28);
    assert buf[4] == 1 && buf[5] == 0;
    assert h[8..] == buf[8..12] + buf[12..16] + buf[16..20] + buf[20..24] + buf[24..28] + buf[28..32];
    assert h[8..] == buf[8..32];
    assert h[0..4] == MAGIC;
    assert h == h[0..4] + h[4..8] + h[8..];
    assert buf[..HEADER] == buf[0..4] + buf[4..8] + buf[8..32];
    assert buf[4..8] == [1, 0, buf[6], buf[7]];
    assert h[4..8] == [1, 0, 0, 0];
    if h == buf[..HEADER] { assert h[6] == buf[..HEADER][6] && h[7] == buf[..HEADER][7]; }
  }

  // ---------------------------------------------------------------- the loops

  method PutBytes(buf: array<byte>, at: nat, bytes: seq<byte>)
    requires at + |bytes| <= buf.Length
    modifies buf
    ensures buf[..] == Splice(old(buf[..]), at, bytes)
  {
    forall k | 0 <= k < |bytes| { buf[at + k] := bytes[k]; }
  }

  /** Build the 1024-byte save buffer. */
  method Serialize(world: Game.Blocks, d: Dims, camera: CameraBits) returns (buf: array<byte>)
    requires HasDims(world, d) && FitsSave(d)
    ensures fresh(buf) && buf[..] == Encoded(world, d, camera)
  {
    buf := new byte[SAVE_SIZE](_ => 0);
    PutHeader(buf, camera);
    ghost var before := buf[..];
    PutBlocks(buf, world, d);
    assert buf[..HEADER] == before[..HEADER] == Header(camera);
    assert buf[HEADER..HEADER + Blocks(d)] == seq(Blocks(d), i requires 0 <= i < Blocks(d) => BlockByte(world, d, i));
    assert buf[HEADER + Blocks(d)..] == before[HEADER + Blocks(d)..] == seq(SAVE_SIZE - HEADER - Blocks(d), _ => 0);
    Pieces(buf[..], HEADER, HEADER + Blocks(d));
  }

  method PutHeader(buf: array<byte>, camera: CameraBits)
    requires buf.Length == SAVE_SIZE && forall i :: 0 <= i < SAVE_SIZE ==> buf[i] == 0
    modifies buf
    ensures buf[..HEADER] == Header(camera) && forall i :: HEADER <= i < SAVE_SIZE ==> buf[i] == 0
  {
    PutBytes(buf, 0, MAGIC);
    PutBytes(buf, 4, [VERSION, 0]);
    assert buf[..8] == MAGIC + [VERSION, 0] + [0, 0];
    PutCamera(buf, camera);
    assert buf[..HEADER] == buf[..8] + buf[8..HEADER];
    assert Header(camera) == MAGIC + [VERSION, 0] + [0, 0] + CameraBytes(camera);
    assert forall i :: 0 <= i < SAVE_SIZE ==> buf[i] == buf[..][i];
  }

  method PutCamera(buf: array<byte>, camera: CameraBits)
    requires buf.Length == SAVE_SIZE
    modifies buf
    ensures buf[..] == Splice(old(buf[..]), 8, CameraBytes(camera))
  {
    PutBytes(buf, 8, LeBytes(camera.px));
    PutBytes(buf, 12, LeBytes(camera.py));
    PutBytes(buf, 16, LeBytes(camera.pz));
    PutBytes(buf, 20, LeBytes(camera.yaw));
    PutBytes(buf, 24, LeBytes(camera.pitch));
    PutBytes(buf, 28, LeBytes(camera.vFov));
  }

  /** Write the blocks with a running offset. */
  method PutBlocks(buf: array<byte>, world: Game.Blocks, d: Dims)
    requires HasDims(world, d) && FitsSave(d) && buf.Length == SAVE_SIZE
    modifies buf
    ensures buf[..HEADER] == old(buf[..HEADER])
    ensures forall i :: 0 <= i < Blocks(d) ==> buf[HEADER + i] == BlockByte(world, d, i)
    ensures buf[HEADER + Blocks(d)..] == old(buf[HEADER + Blocks(d)..])
  {
    var offset := HEADER;
    for x := 0 to d.x
      invariant offset == HEADER + BlockIndex(d, x, 0, 0)
      invariant Written(buf[..], old(buf[..]), world, d, offset)
    {
      for y := 0 to d.y
        invariant offset == HEADER + BlockIndex(d, x, y, 0)
        invariant Written(buf[..], old(buf[..]), world, d, offset)
      {
        for z := 0 to d.z
          invariant offset == HEADER + BlockIndex(d, x, y, z)
          invariant Written(buf[..], old(buf[..]), world, d, offset)
        {
          BlockIndexRange(d, x, y, z);
          buf[offset] := if world[x][y][z] then 1 else 0;
          offset := offset + 1;
        }
        assert BlockIndex(d, x, y, d.z) == BlockIndex(d, x, y + 1, 0);
      }
      assert BlockIndex(d, x, d.y, 0) == BlockIndex(d, x + 1, 0, 0);
    }
    assert BlockIndex(d, d.x, 0, 0) == Blocks(d);
  }

  /** The blocks before `offset` are written, everything else is as it was. */
  ghost predicate Written(buf: seq<byte>, before: seq<byte>, world: Game.Blocks, d: Dims, offset: nat)
    requires HasDims(world, d)
  {
    && |buf| == |before| == SAVE_SIZE
    && (forall i :: 0 <= i < Blocks(d) && HEADER + i < offset && HEADER + i < SAVE_SIZE ==>
          buf[HEADER + i] == BlockByte(world, d, i))
    && (forall k :: 0 <= k < SAVE_SIZE && (k < HEADER || offset <= k) ==> buf[k] == before[k])
  }

  /** Read a save buffer back. */
  method Deserialize(buf: array<byte>, d: Dims) returns (r: Result<(Game.Blocks, CameraBits), SaveError>)
    requires buf.Length == SAVE_SIZE && FitsSave(d)
    ensures r == Decoded(buf[..], d)
  {
    if buf[0..4] != MAGIC { return Err(InvalidMagic); }
    var version := buf[4] as int + 256 * buf[5] as int;
    if version != VERSION { return Err(VersionMismatch); }
    var camera := DecodedCamera(buf[..]);
    var world := GetBlocks(buf, d);
    r := Ok((world, camera));
  }

  /** Read the blocks with a running offset. */
  method GetBlocks(buf: array<byte>, d: Dims) returns (world: Game.Blocks)
    requires buf.Length == SAVE_SIZE && FitsSave(d)
    ensures world == DecodedWorld(buf[..], d)
  {
    ghost var w := DecodedWorld(buf[..], d);
    world := [];
    var offset := HEADER;
    for x := 0 to d.x
      invariant offset == HEADER + BlockIndex(d, x, 0, 0) && world == w[..x]
    {
      var plane: seq<seq<bool>> := [];
      for y := 0 to d.y
        invariant offset == HEADER + BlockIndex(d, x, y, 0) && plane == w[x][..y]
      {
        var row: seq<bool> := [];
        for z := 0 to d.z
          invariant offset == HEADER + BlockIndex(d, x, y, z) && row == w[x][y][..z]
        {
          DecodedCell(buf[..], d, x, y, z);
          row := row + [buf[offset] != 0];
          offset := offset + 1;
        }
        assert row == w[x][y];
        plane := plane + [row];
        assert BlockIndex(d, x, y, d.z) == BlockIndex(d, x, y + 1, 0);
      }
      assert plane == w[x];
      world := world + [plane];
      assert BlockIndex(d, x, d.y, 0) == BlockIndex(d, x + 1, 0, 0);
    }
  }

  // ---------------------------------------------------------------- on disk

  datatype LoadError = Storage(storage: NvmeError) | Format(format: SaveError)

  /** The `save` command: two sectors at `lba`. */
  method SaveWorld(c: NvmeController, lba: nat, world: Game.Blocks, d: Dims, camera: CameraBits)
    returns (r: Result<(), NvmeError>)
    requires c.Valid() && Idle(c.Abs()) && lba < Nvme.WORD32 * Nvme.WORD32 && HasDims(world, d) && FitsSave(d)
    modifies c.Footprint
    ensures r.Ok? ==>
      (lba + 2) * SECTOR <= |c.Abs().disk| &&
      c.Abs().disk[lba * SECTOR..(lba + 2) * SECTOR] == Encoded(world, d, camera)
    ensures |c.Abs().disk| == |old(c.Abs().disk)|
    ensures forall i :: 0 <= i < |c.Abs().disk| && !(lba * SECTOR <= i < (lba + 2) * SECTOR) ==>
              c.Abs().disk[i] == old(c.Abs().disk)[i]
    ensures r != Err(Timeout) ==> Idle(c.Abs())
    ensures Reports(old(NvmeController.Sent(c.Abs(), 1, lba, 2, Encoded(world, d, camera))), c.device.plan,
                    old(c.device.clock), r)
    ensures old(c.device.clock) <= c.device.clock <= old(c.device.clock) + 500_000_000
    ensures (lba + 2) * 512 <= |old(c.Abs()).disk| && old(Serving(c, 1)) ==> r.Ok?
  {
    var buf := Serialize(world, d, camera);
    ghost var s, from, works, data := c.Abs(), c.device.clock, Serving(c, 1), Encoded(world, d, camera);
    assert buf[..2 * SECTOR] == data;
    r := c.WriteSectors(lba, 2, buf);
    if works && (lba + 2) * 512 <= |s.disk| { ServedInTime(s, 1, lba, 2, data, c.device.plan, from, r); }
  }

  /** Read the two sectors of a save. */
  method ReadSave(c: NvmeController, lba: nat) returns (buf: array<byte>, read: Result<(), NvmeError>)
    requires c.Valid() && Idle(c.Abs()) && lba < Nvme.WORD32 * Nvme.WORD32
    modifies c.Footprint
    ensures fresh(buf) && buf.Length == SAVE_SIZE && c.Abs().disk == old(c.Abs()).disk
    ensures read.Ok? ==>
      (lba + 2) * SECTOR <= |c.Abs().disk| && buf[..] == c.Abs().disk[lba * SECTOR..(lba + 2) * SECTOR]
    ensures read != Err(Timeout) ==> Idle(c.Abs())
    ensures old(c.device.clock) <= c.device.clock <= old(c.device.clock) + 500_000_000
    ensures Reports(old(NvmeController.Sent(c.Abs(), 2, lba, 2, [])), c.device.plan, old(c.device.clock), read)
    ensures (lba + 2) * 512 <= |old(c.Abs()).disk| && old(Serving(c, 1)) ==> read.Ok?
  {
    ghost var s, from, works := c.Abs(), c.device.clock, Serving(c, 1);
    buf := new byte[SAVE_SIZE](_ => 0);
    read := c.ReadSectors(lba, 2, buf);
    if works && (lba + 2) * 512 <= |s.disk| { ServedInTime(s, 2, lba, 2, [], c.device.plan, from, read); }
  }

  /** The `load` command. */
  method LoadWorld(c: NvmeController, lba: nat, d: Dims) returns (r: Result<(Game.Blocks, CameraBits), LoadError>)
    requires c.Valid() && Idle(c.Abs()) && lba < Nvme.WORD32 * Nvme.WORD32 && FitsSave(d)
    modifies c.Footprint
    ensures c.Abs().disk == old(c.Abs()).disk
    ensures r.Ok? || (r.Err? && r.error.Format?) ==>
      (lba + 2) * SECTOR <= |c.Abs().disk| &&
      Decoded(c.Abs().disk[lba * SECTOR..(lba + 2) * SECTOR], d) == if r.Ok? then Ok(r.value) else Err(r.error.format)
    ensures r != Err(Storage(Timeout)) ==> Idle(c.Abs())
    ensures old(c.device.clock) <= c.device.clock <= old(c.device.clock) + 500_000_000
    ensures (lba + 2) * 512 <= |old(c.Abs()).disk| && old(Serving(c, 1)) ==> r.Ok? || r.error.Format?
  {
    var buf, read := ReadSave(c, lba);
    if read.Err? { return Err(Storage(read.error)); }
    var decoded := Deserialize(buf, d);
    r := if decoded.Err? then Err(Format(decoded.error)) else Ok(decoded.value);
  }

  /**
   Saving and loading again restores the world and the camera, unless the storage fails; and a device
   that works does not fail.
   */
  method SaveThenLoad(c: NvmeController, lba: nat, world: Game.Blocks, d: Dims, camera: CameraBits)
    returns (r: Result<(Game.Blocks, CameraBits), LoadError>)
    requires c.Valid() && Idle(c.Abs()) && lba < Nvme.WORD32 * Nvme.WORD32 && HasDims(world, d) && FitsSave(d)
    modifies c.Footprint
    ensures r.Ok? ==> r.value == (world, camera)
    ensures r.Err? ==> r.error.Storage?
    ensures (lba + 2) * 512 <= |old(c.Abs()).disk| && old(Serving(c, 2)) ==> r == Ok((world, camera))
  {
    ghost var plan, from, works := c.device.plan, c.device.clock, Serving(c, 2);
    if works { StillServing(c, from, 2, 0); }
    var saved := SaveWorld(c, lba, world, d, camera);
    if saved.Err? { return Err(Storage(saved.error)); }
    DecodeEncode(world, d, camera);
    if works { StillServing(c, from, 2, 1); }
    r := LoadWorld(c, lba, d);
  }
}
