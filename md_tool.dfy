/**
 * The decoder of src/main.cpp as it runs: every step moves the position of
 * one input stream. Each method is proved to leave the stream where the
 * matching function of MdFormat says and to read what it says.
 */
module MdTool {
  import opened Wrappers
  import opened Bytes
  import opened CStdio
  import opened MdFormat

  /** Reads three bytes and compares them, as a C string, to "scr". */
  method IsValidHeaderSignature(stream: Stream) returns (valid: bool)
    modifies stream
    ensures valid <==> SignatureAt(stream.data, old(stream.pos))
    ensures stream.pos <= old(stream.pos) + |SIGNATURE| || stream.pos == old(stream.pos)
    ensures old(stream.pos) + |SIGNATURE| <= |stream.data| ==> stream.pos == old(stream.pos) + |SIGNATURE|
  {
    var signature := stream.Read(|SIGNATURE|);
    valid := signature.Some? && CString(signature.value) == SIGNATURE;
    if signature.Some? {
      CStringIs(signature.value, SIGNATURE);
    }
  }

  /** The realignment loop: advance one byte at a time while bit 4 of the position is set. */
  method SkipWhileBit4(stream: Stream)
    modifies stream
    ensures stream.pos == AlignBit4(old(stream.pos))
  {
    ghost var target := AlignBit4(stream.pos);
    while Bit4(stream.Tell())
      invariant stream.pos <= target
      invariant AlignBit4(stream.pos) == target
      decreases target - stream.pos
    {
      AlignBit4Step(stream.pos);
      stream.Skip(1);
    }
  }

  /**
   * Reads `size - 1` bytes and compares them, NUL-terminated, to header; on a
   * mismatch seeks back over the window and one line on, and probes again.
   */
  method SeekForHeader(stream: Stream, header: seq<Byte>, size: nat) returns (found: bool)
    requires size >= 2
    modifies stream
    ensures found <==> ScanToken(stream.data, old(stream.pos), size - 1, header).Some?
    ensures found ==> stream.pos == ScanToken(stream.data, old(stream.pos), size - 1, header).value + size - 1
  {
    var sizeMinusOne := size - 1;
    while true
      invariant ScanToken(stream.data, stream.pos, sizeMinusOne, header) ==
                ScanToken(stream.data, old(stream.pos), sizeMinusOne, header)
      decreases |stream.data| - stream.pos
    {
      var buffer := stream.Read(sizeMinusOne);
      if buffer.None? {
        return false;
      }
      if CString(buffer.value) == header {
        return true;
      }
      stream.Seek(stream.Tell() - sizeMinusOne + HEX_LINE_OFFSET);
    }
  }

  /**
   * Realigns first when align16 holds; then reads a u32 and, unless it is
   * 0x20, seeks back over it and one line on, and probes again.
   */
  method SeekForSubdvisionHeader(stream: Stream, align16: bool) returns (found: bool)
    modifies stream
    ensures var start := if align16 then AlignBit4(old(stream.pos)) else old(stream.pos);
            (found <==> ScanMagic(stream.data, start).Some?) &&
            (found ==> stream.pos == ScanMagic(stream.data, start).value + 4)
  {
    if align16 {
      SkipWhileBit4(stream);
    }
    ghost var start := stream.pos;
    while true
      invariant ScanMagic(stream.data, stream.pos) == ScanMagic(stream.data, start)
      decreases |stream.data| - stream.pos
    {
      var uintBuffer := stream.ReadU32();
      if uintBuffer.None? {
        return false;
      }
      if uintBuffer.value == SUBDIVISION_MAGIC {
        return true;
      }
      stream.Seek(stream.Tell() - 4 + HEX_LINE_OFFSET);
    }
  }

  /** One fread of `size` 16-byte positions into the caller's buffer. */
  method ReadVertexPositionBuffer(stream: Stream, vertexPosBuffer: array<VertexPosition>, size: nat) returns (ok: bool)
    requires size <= vertexPosBuffer.Length
    modifies stream, vertexPosBuffer
    ensures ok <==> Available(stream.data, old(stream.pos), VERTEX_POSITION_SIZE * size)
    ensures ok ==> stream.pos == old(stream.pos) + VERTEX_POSITION_SIZE * size &&
                   vertexPosBuffer[..size] == PositionsAt(stream.data, old(stream.pos), size)
    ensures vertexPosBuffer[size..] == old(vertexPosBuffer[size..])
  {
    ghost var start := stream.pos;
    var bytes := stream.Read(VERTEX_POSITION_SIZE * size);
    if bytes.None? {
      return false;
    }
    forall i | 0 <= i < size {
      vertexPosBuffer[i] := PositionAt(bytes.value, VERTEX_POSITION_SIZE * i);
    }
    forall i | 0 <= i < size
      ensures vertexPosBuffer[i] == PositionAt(stream.data, start + VERTEX_POSITION_SIZE * i)
    {
      PositionAtOffset(stream.data, start, bytes.value, VERTEX_POSITION_SIZE * i);
    }
    return true;
  }

  /**
   * Skips 4 bytes per vertex, realigns, then reads one (u, v) pair of
   * uint16_t per vertex into the caller's buffer, in index order.
   */
  method ReadVertexUVBuffer(stream: Stream, vertexUVBuffer: array<VertexUv>, size: nat) returns (ok: bool)
    requires size <= vertexUVBuffer.Length
    modifies stream, vertexUVBuffer
    ensures ok <==> Available(stream.data, UvStart(old(stream.pos), size), UV_PAIR_SIZE * size)
    ensures ok ==> stream.pos == UvStart(old(stream.pos), size) + UV_PAIR_SIZE * size &&
                   vertexUVBuffer[..size] == UvsAt(stream.data, UvStart(old(stream.pos), size), size)
    ensures vertexUVBuffer[size..] == old(vertexUVBuffer[size..])
  {
    stream.Seek(stream.Tell() + UV_PAIR_SIZE * size);
    SkipWhileBit4(stream);
    ghost var start := stream.pos;
    for index := 0 to size
      invariant stream.pos == start + UV_PAIR_SIZE * index
      invariant index == 0 || start + UV_PAIR_SIZE * index <= |stream.data|
      invariant forall i :: 0 <= i < index ==> vertexUVBuffer[i] == UvAt(stream.data, start + UV_PAIR_SIZE * i)
      invariant vertexUVBuffer[size..] == old(vertexUVBuffer[size..])
    {
      var tmpU := stream.ReadU16();
      var tmpV := stream.ReadU16();
      if tmpU.None? || tmpV.None? {
        return false;
      }
      vertexUVBuffer[index] := VertexUv(tmpU.value, tmpV.value);
    }
    return true;
  }

  /** fread(&mdbInfoHeader, sizeof(MDBInfoHeader), 1, stream). */
  method ReadMdbInfoHeader(stream: Stream) returns (r: Option<MdbInfoHeader>)
    modifies stream
    ensures r.Some? <==> old(stream.pos) + MDB_HEADER_SIZE <= |stream.data|
    ensures r.Some? ==> r.value == MdbHeaderAt(stream.data, old(stream.pos)) &&
                        stream.pos == old(stream.pos) + MDB_HEADER_SIZE
  {
    var bytes := stream.Read(MDB_HEADER_SIZE);
    if bytes.None? {
      return None;
    }
    var b := bytes.value;
    return Some(MdbInfoHeader(U32At(b, 0), U16At(b, 4), U16At(b, 6)));
  }

  /** fread(&subdivisionInfoHeader, sizeof(SubdivisionInfoHeader), 1, stream). */
  method ReadSubdivisionInfoHeader(stream: Stream) returns (r: Option<SubdivisionInfoHeader>)
    modifies stream
    ensures r.Some? <==> old(stream.pos) + SUBDIVISION_HEADER_SIZE <= |stream.data|
    ensures r.Some? ==> r.value == SubdivisionHeaderAt(stream.data, old(stream.pos)) &&
                        stream.pos == old(stream.pos) + SUBDIVISION_HEADER_SIZE
  {
    var bytes := stream.Read(SUBDIVISION_HEADER_SIZE);
    if bytes.None? {
      return None;
    }
    var b := bytes.value;
    return Some(SubdivisionInfoHeader([U32At(b, 0), U32At(b, 4), U32At(b, 8), U32At(b, 12)], U16At(b, 16)));
  }

  /**
   * One pass of ExportMD's inner loop: subdivision number `submeshIndex` of
   * the current submesh, realigned first unless it is the first one.
   */
  method ExportSubdivision(stream: Stream, submeshIndex: nat) returns (r: Result<Subdivision, Fault>)
    modifies stream
    ensures WithCursor(r, stream.pos) == ReadSubdivision(stream.data, old(stream.pos), submeshIndex)
  {
    ghost var subdivisionStart := stream.pos;
    var found := SeekForSubdvisionHeader(stream, submeshIndex > 0);
    if !found {
      return Err(MarkerNotFound);
    }
    var subdivisionInfoHeader := ReadSubdivisionInfoHeader(stream);
    if subdivisionInfoHeader.None? {
      return Err(Truncated);
    }
    stream.Seek(stream.Tell() + 2 * 4);

    var bufferSize := subdivisionInfoHeader.value.vertexCount;
    var vertexPosBuffer := new VertexPosition[bufferSize];
    var vertexUVBuffer := new VertexUv[bufferSize];
    var ok := ReadVertexPositionBuffer(stream, vertexPosBuffer, bufferSize);
    if !ok {
      return Err(Truncated);
    }
    ok := ReadVertexUVBuffer(stream, vertexUVBuffer, bufferSize);
    if !ok {
      return Err(Truncated);
    }
    assert vertexPosBuffer[..] == vertexPosBuffer[..bufferSize];
    assert vertexUVBuffer[..] == vertexUVBuffer[..bufferSize];
    return Ok(Subdivision(subdivisionInfoHeader.value, vertexPosBuffer[..], vertexUVBuffer[..]));
  }

  /**
   * The head of ExportMD's outer loop: scan for "mdb", skip 1, read the
   * MDBInfoHeader, skip 4.
   */
  method ExportSubmeshHeader(stream: Stream, pointerSize: nat) returns (r: Result<MdbInfoHeader, Fault>)
    requires pointerSize >= 2
    modifies stream
    ensures WithCursor(r, stream.pos) == ReadSubmeshHeader(stream.data, pointerSize - 1, old(stream.pos))
  {
    ghost var submeshStart := stream.pos;
    var found := SeekForHeader(stream, MDB_TOKEN, pointerSize);
    if !found {
      return Err(MarkerNotFound);
    }
    ghost var m := ScanToken(stream.data, submeshStart, pointerSize - 1, MDB_TOKEN).value;
    stream.Skip(1);
    assert stream.pos == m + (pointerSize - 1) + 1;
    var mdbInfoHeader := ReadMdbInfoHeader(stream);
    if mdbInfoHeader.None? {
      return Err(Truncated);
    }
    stream.Skip(4);
    return Ok(mdbInfoHeader.value);
  }

  /** One pass of ExportMD's outer loop: the header, then every subdivision it announces. */
  method ExportSubmesh(stream: Stream, pointerSize: nat) returns (r: Result<Submesh, Fault>)
    requires pointerSize >= 2
    modifies stream
    ensures WithCursor(r, stream.pos) == ReadSubmesh(stream.data, pointerSize - 1, old(stream.pos))
  {
    ghost var data := stream.data;
    ghost var submeshStart := stream.pos;
    var mdbInfoHeader := ExportSubmeshHeader(stream, pointerSize);
    if mdbInfoHeader.Err? {
      return Err(mdbInfoHeader.error);
    }

    ghost var subdivisionsStart := stream.pos;
    var subdivisionAmount := mdbInfoHeader.value.subdivisionAmount;
    var subdivisions: seq<Subdivision> := [];
    for submeshIndex := 0 to subdivisionAmount
      invariant ReadSubdivisions(data, stream.pos, submeshIndex, subdivisionAmount, subdivisions) ==
                ReadSubdivisions(data, subdivisionsStart, 0, subdivisionAmount, [])
    {
      ghost var before := stream.pos;
      var subdivision := ExportSubdivision(stream, submeshIndex);
      if subdivision.Err? {
        return Err(subdivision.error);
      }
      assert ReadSubdivisions(data, before, submeshIndex, subdivisionAmount, subdivisions) ==
             ReadSubdivisions(data, stream.pos, submeshIndex + 1, subdivisionAmount, subdivisions + [subdivision.value]);
      subdivisions := subdivisions + [subdivision.value];
    }
    return Ok(Submesh(mdbInfoHeader.value, subdivisions));
  }

  /**
   * The traversal of ExportMD on a freshly opened stream, for a build whose
   * pointers are `pointerSize` bytes: the signature, SubmeshAmount at 0x08,
   * then every submesh from 0x10 on. A bad signature is reported before
   * anything past the signature is read.
   */
  method ExportMD(stream: Stream, pointerSize: nat) returns (r: Result<ExportOutcome, Fault>)
    requires stream.pos == 0
    requires pointerSize >= 2
    modifies stream
    ensures r == Decode(stream.data, pointerSize - 1)
    ensures r == Ok(WrongSignature) ==> stream.pos <= |SIGNATURE|
  {
    ghost var data := stream.data;
    var valid := IsValidHeaderSignature(stream);
    if !valid {
      return Ok(WrongSignature);
    }

    stream.Seek(INFO_HEADER_OFFSET);
    var mdInfoHeader := stream.ReadU32();
    if mdInfoHeader.None? {
      return Err(Truncated);
    }
    stream.Seek(HEX_LINE_OFFSET);

    var submeshAmount := mdInfoHeader.value;
    var submeshes: seq<Submesh> := [];
    for index := 0 to submeshAmount
      invariant ReadSubmeshes(data, pointerSize - 1, stream.pos, index, submeshAmount, submeshes) ==
                ReadSubmeshes(data, pointerSize - 1, FIRST_LINE_OFFSET, 0, submeshAmount, [])
    {
      ghost var before := stream.pos;
      var submesh := ExportSubmesh(stream, pointerSize);
      if submesh.Err? {
        return Err(submesh.error);
      }
      assert ReadSubmeshes(data, pointerSize - 1, before, index, submeshAmount, submeshes) ==
             ReadSubmeshes(data, pointerSize - 1, stream.pos, index + 1, submeshAmount, submeshes + [submesh.value]);
      submeshes := submeshes + [submesh.value];
    }
    return Ok(Exported(Mesh(submeshAmount, submeshes)));
  }
}
