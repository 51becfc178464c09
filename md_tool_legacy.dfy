/**
 * The older revision of the decoder (main.cpp). It walks the same file with
 * the same probes, but keeps a second cursor, *actualFilePtr, that the scans
 * and reads update beside the stream; it does not realign before a
 * subdivision; it reads 8 bytes per vertex for the uv buffer; and it always
 * ends by returning MD_FAILURE.
 */
module MdToolLegacy {
  import opened Wrappers
  import opened Bytes
  import opened CStdio
  import opened MdFormat

  /** The stream position and *actualFilePtr. */
  datatype Cursor = Cursor(pos: nat, filePtr: nat)

  /** sizeof(VertexUV): two floats read whole, for each vertex. */
  const LEGACY_UV_SIZE: nat := 8

  // ---------------------------------------------------------------------
  // The walk as functions

  /**
   * *actualFilePtr after a scan from start that matched at m: every failed
   * probe sets it to the next probe start, so it is m unless the first probe
   * matched, when it is left as it was.
   */
  function PtrAfterScan(start: nat, m: nat, filePtr: nat): nat
  {
    if m == start then filePtr else m
  }

  /**
   * One subdivision: scan for 0x20 without realigning, read the 20-byte
   * header, skip 8, read n positions, skip 4n. The realignment loop that
   * follows tests `*actualFilePtr & 1` and walks the pointer itself, so it is
   * undefined once it runs; when it does not run, n uv records of 8 bytes are
   * read. *actualFilePtr stays at the skip target.
   */
  function LegacySubdivision(data: seq<Byte>, c: Cursor): (r: Result<Cursor, Fault>)
    ensures r.Ok? ==> r.value.filePtr % 2 == 0 && c.pos + 32 <= r.value.filePtr <= r.value.pos
  {
    match ScanMagic(data, c.pos)
    case None => Err(MarkerNotFound)
    case Some(m) =>
      var h := m + 4;
      if |data| < h + SUBDIVISION_HEADER_SIZE then Err(Truncated)
      else
        var n := U16At(data, h + 16);
        var positionStart := h + SUBDIVISION_HEADER_SIZE + 8;
        if !Available(data, positionStart, VERTEX_POSITION_SIZE * n) then Err(Truncated)
        else
          var skip := positionStart + VERTEX_POSITION_SIZE * n + UV_PAIR_SIZE * n;
          if skip % 2 == 1 then Err(Undefined)
          else if !Available(data, skip, LEGACY_UV_SIZE * n) then Err(Truncated)
          else Ok(Cursor(skip + LEGACY_UV_SIZE * n, skip))
  }

  function LegacySubdivisions(data: seq<Byte>, c: Cursor, index: nat, amount: nat): (r: Result<Cursor, Fault>)
    ensures r.Ok? ==> c.pos <= r.value.pos
    ensures r.Ok? && index < amount ==> r.value.filePtr % 2 == 0 && r.value.filePtr <= r.value.pos
    decreases amount - index
  {
    if amount <= index then Ok(c)
    else
      match LegacySubdivision(data, c)
      case Err(e) => Err(e)
      case Ok(c') => LegacySubdivisions(data, c', index + 1, amount)
  }

  /** One submesh: scan for "mdb", skip 1, read MDBInfoHeader, skip 4, walk its subdivisions. */
  function LegacySubmesh(data: seq<Byte>, window: nat, c: Cursor): (r: Result<Cursor, Fault>)
    ensures r.Ok? ==> c.pos + window + 1 + MDB_HEADER_SIZE + 4 <= r.value.pos && r.value.filePtr <= r.value.pos
  {
    match ScanToken(data, c.pos, window, MDB_TOKEN)
    case None => Err(MarkerNotFound)
    case Some(m) =>
      var h := m + window + 1;
      if |data| < h + MDB_HEADER_SIZE then Err(Truncated)
      else
        var q := h + MDB_HEADER_SIZE + 4;
        LegacySubdivisions(data, Cursor(q, q), 0, MdbHeaderAt(data, h).subdivisionAmount)
  }

  function LegacySubmeshes(data: seq<Byte>, window: nat, c: Cursor, index: nat, amount: nat): (r: Result<Cursor, Fault>)
    ensures r.Ok? ==> c.pos <= r.value.pos
    decreases amount - index
  {
    if amount <= index then Ok(c)
    else
      match LegacySubmesh(data, window, c)
      case Err(e) => Err(e)
      case Ok(c') => LegacySubmeshes(data, window, c', index + 1, amount)
  }

  /** ExportMD of main.cpp: the status code it returns, when it returns. */
  function LegacyExport(data: seq<Byte>, window: nat): (r: Result<StatusCode, Fault>)
    ensures r.Ok? ==> r.value == MdWrongSignature || r.value == MdFailure
  {
    if !ValidSignature(data) then Ok(MdWrongSignature)
    else if |data| < INFO_HEADER_OFFSET + 4 then Err(Truncated)
    else
      match LegacySubmeshes(data, window, Cursor(FIRST_LINE_OFFSET, FIRST_LINE_OFFSET), 0,
                            U32At(data, INFO_HEADER_OFFSET))
      case Err(e) => Err(e)
      case Ok(_) => Ok(MdFailure)
  }

  /**
   * The older ExportMD never reports success: a bad signature gives
   * MD_WRONG_SIGNATURE, and a walk that completes gives MD_FAILURE.
   */
  lemma LegacyExportNeverOk(data: seq<Byte>, window: nat)
    ensures LegacyExport(data, window) != Ok(MdOk)
    ensures LegacyExport(data, window) == Ok(MdWrongSignature) <==> !ValidSignature(data)
    ensures ValidSignature(data) && LegacyExport(data, window).Ok? ==> LegacyExport(data, window).value == MdFailure
  {
  }

  /**
   * A subdivision leaves *actualFilePtr at the even skip target and the
   * stream 8 bytes per vertex past it; the uv block the newer revision reads
   * starts where that skip target is realigned to.
   */
  lemma LegacySubdivisionCursor(data: seq<Byte>, p: nat, filePtr: nat)
    requires LegacySubdivision(data, Cursor(p, filePtr)).Ok?
    ensures var c := LegacySubdivision(data, Cursor(p, filePtr)).value;
            var m := ScanMagic(data, p).value;
            var n := U16At(data, m + 4 + 16);
            c.filePtr % 2 == 0 && c.pos == c.filePtr + LEGACY_UV_SIZE * n &&
            c.filePtr == m + 32 + 20 * n &&
            (ReadSubdivision(data, p, 0).Ok? ==>
               ReadSubdivision(data, p, 0).value.1 == AlignBit4(c.filePtr) + UV_PAIR_SIZE * n)
  {
  }

  /**
   * From an even stream position a subdivision never reaches the undefined
   * realignment loop: the marker is an even number of bytes on, and so are
   * the skip target and the position after the uv records.
   */
  lemma LegacySubdivisionEven(data: seq<Byte>, c: Cursor)
    requires c.pos % 2 == 0
    ensures LegacySubdivision(data, c) != Err(Undefined)
    ensures LegacySubdivision(data, c).Ok? ==> LegacySubdivision(data, c).value.pos % 2 == 0
  {
    ScanMagicLeast(data, c.pos);
  }

  lemma {:induction false} LegacySubdivisionsEven(data: seq<Byte>, c: Cursor, index: nat, amount: nat)
    requires c.pos % 2 == 0
    ensures LegacySubdivisions(data, c, index, amount) != Err(Undefined)
    ensures LegacySubdivisions(data, c, index, amount).Ok? ==> LegacySubdivisions(data, c, index, amount).value.pos % 2 == 0
    decreases amount - index
  {
    if index < amount {
      LegacySubdivisionEven(data, c);
      var step := LegacySubdivision(data, c);
      if step.Ok? {
        LegacySubdivisionsEven(data, step.value, index + 1, amount);
      }
    }
  }

  /**
   * With an odd window (3 bytes for 4-byte pointers, 7 for 8-byte ones) a
   * submesh starts its subdivisions at an even offset, from an even one.
   */
  lemma LegacySubmeshEven(data: seq<Byte>, window: nat, c: Cursor)
    requires window % 2 == 1 && c.pos % 2 == 0
    ensures LegacySubmesh(data, window, c) != Err(Undefined)
    ensures LegacySubmesh(data, window, c).Ok? ==> LegacySubmesh(data, window, c).value.pos % 2 == 0
  {
    ScanTokenLeast(data, c.pos, window, MDB_TOKEN);
    match ScanToken(data, c.pos, window, MDB_TOKEN)
    case None =>
    case Some(m) =>
      var h := m + window + 1;
      if |data| >= h + MDB_HEADER_SIZE {
        var q := h + MDB_HEADER_SIZE + 4;
        assert q % 2 == 0;
        LegacySubdivisionsEven(data, Cursor(q, q), 0, MdbHeaderAt(data, h).subdivisionAmount);
      }
  }

  lemma {:induction false} LegacySubmeshesEven(data: seq<Byte>, window: nat, c: Cursor, index: nat, amount: nat)
    requires window % 2 == 1 && c.pos % 2 == 0
    ensures LegacySubmeshes(data, window, c, index, amount) != Err(Undefined)
    ensures LegacySubmeshes(data, window, c, index, amount).Ok? ==>
              LegacySubmeshes(data, window, c, index, amount).value.pos % 2 == 0
    decreases amount - index
  {
    if index < amount {
      LegacySubmeshEven(data, window, c);
      var step := LegacySubmesh(data, window, c);
      if step.Ok? {
        LegacySubmeshesEven(data, window, step.value, index + 1, amount);
      }
    }
  }

  /**
   * On a build whose "mdb" window is odd, which both 4- and 8-byte pointers
   * give, the older walk never reaches the undefined realignment loop.
   */
  lemma LegacyExportDefined(data: seq<Byte>, window: nat)
    requires window % 2 == 1
    ensures LegacyExport(data, window) != Err(Undefined)
  {
    if ValidSignature(data) && |data| >= INFO_HEADER_OFFSET + 4 {
      LegacySubmeshesEven(data, window, Cursor(FIRST_LINE_OFFSET, FIRST_LINE_OFFSET), 0,
                          U32At(data, INFO_HEADER_OFFSET));
    }
  }

  // ---------------------------------------------------------------------
  // The walk as it runs

  method IsValidHeaderSignature(stream: Stream) returns (valid: bool)
    modifies stream
    ensures valid <==> SignatureAt(stream.data, old(stream.pos))
    ensures stream.pos <= old(stream.pos) + |SIGNATURE| || stream.pos == old(stream.pos)
    ensures old(stream.pos) + |SIGNATURE| <= |stream.data| ==> stream.pos == old(stream.pos) + |SIGNATURE|
  {
    var signature := stream.Read(|SIGNATURE|);
    valid := signature.Some? && CString(signature.value) == SIGNATURE;
    if signature.Some? {
      CStringIs(signature.value, SIGNATURE);
    }
  }

  /**
   * The same probes as the newer SeekForHeader; each failed probe also
   * stores the next probe start in *actualFilePtr before seeking there.
   */
  method SeekForHeader(stream: Stream, header: seq<Byte>, size: nat, actualFilePtr: nat)
    returns (found: bool, filePtr: nat)
    requires size >= 2
    modifies stream
    ensures found <==> ScanToken(stream.data, old(stream.pos), size - 1, header).Some?
    ensures found ==> var m := ScanToken(stream.data, old(stream.pos), size - 1, header).value;
                      stream.pos == m + size - 1 && filePtr == PtrAfterScan(old(stream.pos), m, actualFilePtr)
  {
    ghost var start := stream.pos;
    var sizeMinusOne := size - 1;
    filePtr := actualFilePtr;
    while true
      invariant ScanToken(stream.data, stream.pos, sizeMinusOne, header) ==
                ScanToken(stream.data, start, sizeMinusOne, header)
      invariant filePtr == PtrAfterScan(start, stream.pos, actualFilePtr)
      invariant start <= stream.pos
      decreases |stream.data| - stream.pos
    {
      ghost var probe := stream.pos;
      var buffer := stream.Read(sizeMinusOne);
      if buffer.None? {
        return false, filePtr;
      }
      if CString(buffer.value) == header {
        return true, filePtr;
      }
      filePtr := stream.Tell() - sizeMinusOne + HEX_LINE_OFFSET;
      stream.Seek(filePtr);
    }
  }

  /** The u32 scan for 0x20, with no realignment before it. */
  method SeekForSubdvisionHeader(stream: Stream, actualFilePtr: nat) returns (found: bool, filePtr: nat)
    modifies stream
    ensures found <==> ScanMagic(stream.data, old(stream.pos)).Some?
    ensures found ==> var m := ScanMagic(stream.data, old(stream.pos)).value;
                      stream.pos == m + 4 && filePtr == PtrAfterScan(old(stream.pos), m, actualFilePtr)
  {
    ghost var start := stream.pos;
    filePtr := actualFilePtr;
    while true
      invariant ScanMagic(stream.data, stream.pos) == ScanMagic(stream.data, start)
      invariant filePtr == PtrAfterScan(start, stream.pos, actualFilePtr)
      invariant start <= stream.pos
      decreases |stream.data| - stream.pos
    {
      var uintBuffer := stream.ReadU32();
      if uintBuffer.None? {
        return false, filePtr;
      }
      if uintBuffer.value == SUBDIVISION_MAGIC {
        return true, filePtr;
      }
      filePtr := stream.Tell() - 4 + HEX_LINE_OFFSET;
      stream.Seek(filePtr);
    }
  }

  /** One 16-byte fread per vertex, advancing *actualFilePtr by 16 each time. */
  method ReadVertexPositionBuffer(stream: Stream, size: nat, actualFilePtr: nat) returns (ok: bool, filePtr: nat)
    modifies stream
    ensures ok <==> Available(stream.data, old(stream.pos), VERTEX_POSITION_SIZE * size)
    ensures ok ==> stream.pos == old(stream.pos) + VERTEX_POSITION_SIZE * size &&
                   filePtr == actualFilePtr + VERTEX_POSITION_SIZE * size
  {
    ghost var start := stream.pos;
    filePtr := actualFilePtr;
    for index := 0 to size
      invariant stream.pos == start + VERTEX_POSITION_SIZE * index
      invariant filePtr == actualFilePtr + VERTEX_POSITION_SIZE * index
      invariant index == 0 || start + VERTEX_POSITION_SIZE * index <= |stream.data|
    {
      var vertex := stream.Read(VERTEX_POSITION_SIZE);
      if vertex.None? {
        return false, filePtr;
      }
      filePtr := filePtr + VERTEX_POSITION_SIZE;
    }
    return true, filePtr;
  }

  /**
   * Sets *actualFilePtr to the position 4 bytes per vertex on and seeks
   * there; an odd target would enter the undefined realignment loop;
   * otherwise reads one 8-byte record per vertex.
   */
  method ReadVertexUVBuffer(stream: Stream, size: nat) returns (r: Result<nat, Fault>)
    modifies stream
    ensures var skip := old(stream.pos) + UV_PAIR_SIZE * size;
            r == (if skip % 2 == 1 then Err(Undefined)
                  else if !Available(stream.data, skip, LEGACY_UV_SIZE * size) then Err(Truncated)
                  else Ok(skip))
    ensures r.Ok? ==> stream.pos == r.value + LEGACY_UV_SIZE * size
  {
    var filePtr := stream.Tell() + UV_PAIR_SIZE * size;
    stream.Seek(filePtr);
    if filePtr % 2 == 1 {
      return Err(Undefined);
    }
    for index := 0 to size
      invariant stream.pos == filePtr + LEGACY_UV_SIZE * index
      invariant index == 0 || filePtr + LEGACY_UV_SIZE * index <= |stream.data|
    {
      var uv := stream.Read(LEGACY_UV_SIZE);
      if uv.None? {
        return Err(Truncated);
      }
    }
    return Ok(filePtr);
  }

  /** One pass of the inner loop of the older ExportMD. */
  method ExportSubdivision(stream: Stream, actualFilePtr: nat) returns (r: Result<nat, Fault>)
    modifies stream
    ensures (match r case Ok(f) => Ok(Cursor(stream.pos, f)) case Err(e) => Err(e)) ==
            LegacySubdivision(stream.data, Cursor(old(stream.pos), actualFilePtr))
  {
    var found, filePtr := SeekForSubdvisionHeader(stream, actualFilePtr);
    if !found {
      return Err(MarkerNotFound);
    }
    var subdivisionInfoHeader := stream.Read(SUBDIVISION_HEADER_SIZE);
    if subdivisionInfoHeader.None? {
      return Err(Truncated);
    }
    filePtr := stream.Tell() + 2 * 4;
    stream.Seek(filePtr);
    var bufferSize := U16At(subdivisionInfoHeader.value, 16);
    var ok;
    ok, filePtr := ReadVertexPositionBuffer(stream, bufferSize, filePtr);
    if !ok {
      return Err(Truncated);
    }
    r := ReadVertexUVBuffer(stream, bufferSize);
  }

  /** One pass of the outer loop of the older ExportMD. */
  method ExportSubmesh(stream: Stream, pointerSize: nat, actualFilePtr: nat) returns (r: Result<nat, Fault>)
    requires pointerSize >= 2
    modifies stream
    ensures (match r case Ok(f) => Ok(Cursor(stream.pos, f)) case Err(e) => Err(e)) ==
            LegacySubmesh(stream.data, pointerSize - 1, Cursor(old(stream.pos), actualFilePtr))
  {
    ghost var data := stream.data;
    ghost var submeshStart := stream.pos;
    var found: bool, filePtr: nat := SeekForHeader(stream, MDB_TOKEN, pointerSize, actualFilePtr);
    if !found {
      return Err(MarkerNotFound);
    }
    ghost var m := ScanToken(data, submeshStart, pointerSize - 1, MDB_TOKEN).value;
    filePtr := stream.Tell() + 1;
    stream.Seek(filePtr);
    ghost var h := stream.pos;
    assert h == m + (pointerSize - 1) + 1;
    var mdbInfoHeader := stream.Read(MDB_HEADER_SIZE);
    if mdbInfoHeader.None? {
      return Err(Truncated);
    }
    filePtr := stream.Tell() + 4;
    stream.Seek(filePtr);

    assert mdbInfoHeader.value[6] == data[h + 6] && mdbInfoHeader.value[7] == data[h + 7];
    var subdivisionAmount := U16At(mdbInfoHeader.value, 6);
    assert subdivisionAmount == MdbHeaderAt(data, h).subdivisionAmount;
    assert filePtr == h + MDB_HEADER_SIZE + 4;
    ghost var first := Cursor(stream.pos, filePtr);
    assert LegacySubmesh(data, pointerSize - 1, Cursor(submeshStart, actualFilePtr)) ==
           LegacySubdivisions(data, first, 0, subdivisionAmount);
    for nIndex := 0 to subdivisionAmount
      invariant LegacySubdivisions(data, Cursor(stream.pos, filePtr), nIndex, subdivisionAmount) ==
                LegacySubdivisions(data, first, 0, subdivisionAmount)
    {
      var next := ExportSubdivision(stream, filePtr);
      if next.Err? {
        return Err(next.error);
      }
      filePtr := next.value;
    }
    return Ok(filePtr);
  }

  /** ExportMD of main.cpp on a freshly opened stream. */
  method ExportMD(stream: Stream, pointerSize: nat) returns (r: Result<StatusCode, Fault>)
    requires stream.pos == 0
    requires pointerSize >= 2
    modifies stream
    ensures r == LegacyExport(stream.data, pointerSize - 1)
  {
    ghost var data := stream.data;
    var valid := IsValidHeaderSignature(stream);
    if !valid {
      return Ok(MdWrongSignature);
    }
    stream.Seek(INFO_HEADER_OFFSET);
    var mdInfoHeader := stream.ReadU32();
    if mdInfoHeader.None? {
      return Err(Truncated);
    }
    var actualFilePtr: nat := HEX_LINE_OFFSET;
    stream.Seek(HEX_LINE_OFFSET);

    var submeshAmount := mdInfoHeader.value;
    for index := 0 to submeshAmount
      invariant LegacySubmeshes(data, pointerSize - 1, Cursor(stream.pos, actualFilePtr), index, submeshAmount) ==
                LegacySubmeshes(data, pointerSize - 1, Cursor(FIRST_LINE_OFFSET, FIRST_LINE_OFFSET), 0, submeshAmount)
    {
      var next := ExportSubmesh(stream, pointerSize, actualFilePtr);
      if next.Err? {
        return Err(next.error);
      }
      actualFilePtr := next.value;
    }
    return Ok(MdFailure);
  }
}
