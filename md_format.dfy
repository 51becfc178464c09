/**
 * The MD container as the decoder of src/main.cpp walks it, stated as pure
 * functions over the file's bytes: the "scr" signature, the fixed-stride
 * scans for the "mdb" token and the 0x20 subdivision marker, the bit-4
 * realignment, the fixed-layout headers and the vertex buffers. The methods
 * of MdTool are proved to compute exactly these functions.
 */
module MdFormat {
  import opened Wrappers
  import opened Bytes

  /** HEX_LINE_OFFSET: the 16-byte line every scan strides by. */
  const HEX_LINE_OFFSET: nat := 0x10
  /** STRIP_FLAG_SKIP: the strip flag of a degenerate vertex. */
  const STRIP_FLAG_SKIP: U32 := 0x8000
  /** The u32 every subdivision header is preceded by. */
  const SUBDIVISION_MAGIC: U32 := 0x20
  /** Offset of MDInfoHeader, and of the first line scanned for submeshes. */
  const INFO_HEADER_OFFSET: nat := 0x08
  const FIRST_LINE_OFFSET: nat := 0x10
  /** sizeof(MDBInfoHeader), sizeof(SubdivisionInfoHeader) with its padding, sizeof(VertexPosition). */
  const MDB_HEADER_SIZE: nat := 8
  const SUBDIVISION_HEADER_SIZE: nat := 20
  const VERTEX_POSITION_SIZE: nat := 16
  /** Two uint16_t per vertex. */
  const UV_PAIR_SIZE: nat := 4

  /** "scr" and "mdb" as bytes. */
  const SIGNATURE: seq<Byte> := ['s' as int, 'c' as int, 'r' as int]
  const MDB_TOKEN: seq<Byte> := ['m' as int, 'd' as int, 'b' as int]

  datatype MdbInfoHeader = MdbInfoHeader(submeshType: U32, submeshId: U16, subdivisionAmount: U16)

  datatype SubdivisionInfoHeader = SubdivisionInfoHeader(reserved: seq<U32>, vertexCount: U16)

  /** X, Y, Z are IEEE-754 floats kept as their raw 32-bit words. */
  datatype VertexPosition = VertexPosition(x: U32, y: U32, z: U32, stripFlag: U32)

  /** The raw u16 pair a VertexUV is decoded from. */
  datatype VertexUv = VertexUv(u: U16, v: U16)

  datatype Subdivision = Subdivision(header: SubdivisionInfoHeader, positions: seq<VertexPosition>, uvs: seq<VertexUv>)

  datatype Submesh = Submesh(header: MdbInfoHeader, subdivisions: seq<Subdivision>)

  datatype Mesh = Mesh(submeshAmount: U32, submeshes: seq<Submesh>)

  /** StatusCode. */
  datatype StatusCode = MdOk | MdShowInstructions | MdInvalidArgc | MdInvalidArgument | MdWrongSignature | MdFailure

  /**
   * Where the source has no defined or terminating behaviour: a read past the
   * end of the file (stale buffer), a scan that runs off the end (endless
   * loop), undefined behaviour.
   */
  datatype Fault = Truncated | MarkerNotFound | Undefined

  /** What ExportMD ends with when it terminates normally. */
  datatype ExportOutcome = WrongSignature | Exported(mesh: Mesh)

  function Status(o: ExportOutcome): StatusCode
  {
    match o
    case WrongSignature => MdWrongSignature
    case Exported(_) => MdOk
  }

  // ---------------------------------------------------------------------
  // Signature

  /** The three bytes read at p are exactly "scr" (strcmp is case-sensitive). */
  predicate SignatureAt(data: seq<Byte>, p: nat)
  {
    p + |SIGNATURE| <= |data| && data[p..p + |SIGNATURE|] == SIGNATURE
  }

  predicate ValidSignature(data: seq<Byte>)
  {
    SignatureAt(data, 0)
  }

  /** Upper-case "SCR" is rejected, and so is every file whose first bytes differ. */
  lemma SignatureCaseSensitive(data: seq<Byte>)
    requires |data| >= 3
    ensures ValidSignature(data) <==> data[0] == 0x73 && data[1] == 0x63 && data[2] == 0x72
    ensures data[0] == 0x53 ==> !ValidSignature(data)
  {
    assert data[..3] == [data[0], data[1], data[2]];
  }

  // ---------------------------------------------------------------------
  // The bit-4 realignment

  /** ftell(stream) & HEX_LINE_OFFSET != 0: bit 4 of the offset is set. */
  predicate Bit4(p: nat)
  {
    (p / HEX_LINE_OFFSET) % 2 == 1
  }

  /** Where `while ((ftell(stream) & HEX_LINE_OFFSET) != 0) fseek(stream, 1, SEEK_CUR);` stops. */
  function AlignBit4(p: nat): (r: nat)
    ensures p <= r <= p + 16 && !Bit4(r)
  {
    Bit4UpperHalf(p);
    Bit4UpperHalf((p / 32 + 1) * 32);
    if Bit4(p) then (p / 32 + 1) * 32 else p
  }

  /** Division by 16 and by 32 are determined by quotient and remainder. */
  lemma DivMod16(x: int, lo: int, hi: int)
    requires 0 <= lo < 16 && x == lo + 16 * hi
    ensures x / 16 == hi && x % 16 == lo
  {
  }

  lemma DivMod32(x: int, lo: int, hi: int)
    requires 0 <= lo < 32 && x == lo + 32 * hi
    ensures x / 32 == hi && x % 32 == lo
  {
  }

  /** Bit 4 is set exactly in the upper half of each 32-byte block. */
  lemma Bit4UpperHalf(p: nat)
    ensures Bit4(p) <==> p % 32 >= 16
  {
    var a, r := p / 32, p % 32;
    if r < 16 {
      DivMod16(p, r, 2 * a);
    } else {
      DivMod16(p, r - 16, 2 * a + 1);
    }
  }

  /**
   * The realignment stops at the least offset q >= p whose bit 4 is clear:
   * p itself when bit 4 is clear, else the next multiple of 32, at most 16 on.
   */
  lemma AlignBit4Least(p: nat)
    ensures p <= AlignBit4(p) <= p + 16
    ensures !Bit4(AlignBit4(p))
    ensures forall q :: p <= q < AlignBit4(p) ==> Bit4(q)
    ensures !Bit4(p) ==> AlignBit4(p) == p
    ensures Bit4(p) ==> AlignBit4(p) % 32 == 0
  {
    if Bit4(p) {
      var a := p / 32;
      var r := AlignBit4(p);
      Bit4UpperHalf(p);
      assert p == 32 * a + p % 32;
      assert r == 32 * (a + 1);
      DivMod32(r, 0, a + 1);
      Bit4UpperHalf(r);
      forall q | p <= q < r
        ensures Bit4(q)
      {
        DivMod32(q, q - 32 * a, a);
        Bit4UpperHalf(q);
      }
    }
  }

  /** One step of the realignment loop keeps its destination. */
  lemma AlignBit4Step(p: nat)
    requires Bit4(p)
    ensures p < AlignBit4(p)
    ensures AlignBit4(p + 1) == AlignBit4(p)
  {
    AlignBit4Least(p);
    var a := p / 32;
    Bit4UpperHalf(p);
    assert p == 32 * a + p % 32;
    if p + 1 < AlignBit4(p) {
      DivMod32(p + 1, p + 1 - 32 * a, a);
    }
  }

  // ---------------------------------------------------------------------
  // The fixed-stride scans

  /** q is one of the probe starts start, start + 16, start + 32, ... */
  predicate IsProbe(start: nat, q: nat)
  {
    start <= q && (q - start) % HEX_LINE_OFFSET == 0
  }

  /** The window of `window` bytes at p, NUL-terminated, compares equal to token. */
  predicate TokenAt(data: seq<Byte>, p: nat, window: nat, token: seq<Byte>)
    requires p + window <= |data|
  {
    CString(data[p..p + window]) == token
  }

  /**
   * SeekForHeader's probes: read `window` bytes at start; on a match the scan
   * stops there, otherwise it restarts 16 bytes after start. A probe that
   * would read past the end ends the scan without a match.
   */
  function ScanToken(data: seq<Byte>, start: nat, window: nat, token: seq<Byte>): (r: Option<nat>)
    ensures r.Some? ==> IsProbe(start, r.value) && r.value + window <= |data| &&
                        TokenAt(data, r.value, window, token)
    decreases |data| - start
  {
    if |data| < start + window then None
    else if TokenAt(data, start, window, token) then Some(start)
    else ScanToken(data, start + HEX_LINE_OFFSET, window, token)
  }

  /**
   * A match is at start + 16k for the least k whose window equals the token;
   * no match means no in-bounds probe matches.
   */
  lemma {:induction false} ScanTokenLeast(data: seq<Byte>, start: nat, window: nat, token: seq<Byte>)
    ensures ScanToken(data, start, window, token).Some? ==>
              var m := ScanToken(data, start, window, token).value;
              IsProbe(start, m) && m + window <= |data| && TokenAt(data, m, window, token) &&
              forall q: nat :: IsProbe(start, q) && q < m ==> !TokenAt(data, q, window, token)
    ensures ScanToken(data, start, window, token).None? ==>
              forall q: nat :: IsProbe(start, q) && q + window <= |data| ==> !TokenAt(data, q, window, token)
    decreases |data| - start
  {
    if |data| < start + window {
    } else if TokenAt(data, start, window, token) {
    } else {
      var next := start + HEX_LINE_OFFSET;
      ScanTokenLeast(data, next, window, token);
      forall q | IsProbe(start, q) && q != start
        ensures IsProbe(next, q)
      {
      }
    }
  }

  /**
   * An "mdb" that lies off the 16-byte stride is never probed: in a 32-byte
   * file holding it only at offset 5, the scan from 0 fails instead of
   * finding it.
   */
  lemma MisalignedTokenNotFound(data: seq<Byte>)
    requires |data| == 32
    requires data[5..8] == MDB_TOKEN
    requires forall i :: 0 <= i < |data| && !(5 <= i < 8) ==> data[i] == 0
    ensures TokenAt(data, 5, 3, MDB_TOKEN)
    ensures ScanToken(data, 0, 3, MDB_TOKEN).None?
  {
    assert 0 !in MDB_TOKEN;
    CStringIs(data[5..8], MDB_TOKEN);
    assert data[0..3][0] == 0 && data[16..19][0] == 0;
    assert !TokenAt(data, 0, 3, MDB_TOKEN);
    assert !TokenAt(data, 16, 3, MDB_TOKEN);
    assert ScanToken(data, 32, 3, MDB_TOKEN).None?;
    assert ScanToken(data, 0, 3, MDB_TOKEN) == ScanToken(data, 16, 3, MDB_TOKEN);
  }

  /** The u32 at p is SUBDIVISION_MAGIC. */
  predicate MagicAt(data: seq<Byte>, p: nat)
    requires p + 4 <= |data|
  {
    U32At(data, p) == SUBDIVISION_MAGIC
  }

  /**
   * SeekForSubdvisionHeader's probes after its optional realignment: read a
   * u32 at start; on 0x20 stop there, otherwise restart 16 bytes after start.
   */
  function ScanMagic(data: seq<Byte>, start: nat): (r: Option<nat>)
    ensures r.Some? ==> IsProbe(start, r.value) && r.value + 4 <= |data| && MagicAt(data, r.value)
    decreases |data| - start
  {
    if |data| < start + 4 then None
    else if MagicAt(data, start) then Some(start)
    else ScanMagic(data, start + HEX_LINE_OFFSET)
  }

  lemma {:induction false} ScanMagicLeast(data: seq<Byte>, start: nat)
    ensures ScanMagic(data, start).Some? ==>
              var m := ScanMagic(data, start).value;
              IsProbe(start, m) && m + 4 <= |data| && MagicAt(data, m) &&
              forall q: nat :: IsProbe(start, q) && q < m ==> !MagicAt(data, q)
    ensures ScanMagic(data, start).None? ==>
              forall q: nat :: IsProbe(start, q) && q + 4 <= |data| ==> !MagicAt(data, q)
    decreases |data| - start
  {
    if |data| < start + 4 {
    } else if MagicAt(data, start) {
    } else {
      var next := start + HEX_LINE_OFFSET;
      ScanMagicLeast(data, next);
      forall q | IsProbe(start, q) && q != start
        ensures IsProbe(next, q)
      {
      }
    }
  }

  /**
   * With sizeof(char*) == 4 the "mdb" window is the three bytes themselves;
   * with sizeof(char*) == 8 it is seven bytes and strcmp also needs a NUL
   * right after "mdb". Only with the 3-byte window does the submesh header
   * end on the next line: match + 3 + 1 + 8 + 4 == match + 16; with the
   * 7-byte window it ends 4 bytes past it.
   */
  lemma MdbWindow(data: seq<Byte>, p: nat, pointerSize: nat)
    requires pointerSize == 4 || pointerSize == 8
    requires p + pointerSize - 1 <= |data|
    ensures pointerSize == 4 ==> (TokenAt(data, p, 3, MDB_TOKEN) <==> data[p..p + 3] == MDB_TOKEN)
    ensures pointerSize == 8 ==> (TokenAt(data, p, 7, MDB_TOKEN) <==> data[p..p + 3] == MDB_TOKEN && data[p + 3] == 0)
    ensures (pointerSize - 1) + 1 + MDB_HEADER_SIZE + 4 ==
              if pointerSize == 4 then HEX_LINE_OFFSET else HEX_LINE_OFFSET + 4
  {
    assert 0 !in MDB_TOKEN;
    var w := pointerSize - 1;
    CStringIs(data[p..p + w], MDB_TOKEN);
    assert data[p..p + w][..3] == data[p..p + 3];
  }

  // ---------------------------------------------------------------------
  // Headers and buffers at fixed offsets

  function MdbHeaderAt(data: seq<Byte>, p: nat): MdbInfoHeader
    requires p + MDB_HEADER_SIZE <= |data|
  {
    MdbInfoHeader(U32At(data, p), U16At(data, p + 4), U16At(data, p + 6))
  }

  /** Reserved[4], then VertexCount at offset 16, then two bytes of padding. */
  function SubdivisionHeaderAt(data: seq<Byte>, p: nat): SubdivisionInfoHeader
    requires p + SUBDIVISION_HEADER_SIZE <= |data|
  {
    SubdivisionInfoHeader([U32At(data, p), U32At(data, p + 4), U32At(data, p + 8), U32At(data, p + 12)],
                          U16At(data, p + 16))
  }

  function PositionAt(data: seq<Byte>, p: nat): VertexPosition
    requires p + VERTEX_POSITION_SIZE <= |data|
  {
    VertexPosition(U32At(data, p), U32At(data, p + 4), U32At(data, p + 8), U32At(data, p + 12))
  }

  /** A position read from a buffer filled from offset start is the position at start + b. */
  lemma PositionAtOffset(data: seq<Byte>, start: nat, bytes: seq<Byte>, b: nat)
    requires start + |bytes| <= |data| && bytes == data[start..start + |bytes|]
    requires b + VERTEX_POSITION_SIZE <= |bytes|
    ensures PositionAt(bytes, b) == PositionAt(data, start + b)
  {
    forall j | b <= j < b + VERTEX_POSITION_SIZE
      ensures bytes[j] == data[start + j]
    {
    }
  }

  /** n consecutive 16-byte positions starting at p. */
  function PositionsAt(data: seq<Byte>, p: nat, n: nat): (r: seq<VertexPosition>)
    requires Available(data, p, VERTEX_POSITION_SIZE * n)
    ensures |r| == n
  {
    seq(n, i requires 0 <= i < n => PositionAt(data, p + VERTEX_POSITION_SIZE * i))
  }

  function UvAt(data: seq<Byte>, p: nat): VertexUv
    requires p + UV_PAIR_SIZE <= |data|
  {
    VertexUv(U16At(data, p), U16At(data, p + 2))
  }

  /** n consecutive (u, v) pairs of uint16_t starting at p. */
  function UvsAt(data: seq<Byte>, p: nat, n: nat): (r: seq<VertexUv>)
    requires Available(data, p, UV_PAIR_SIZE * n)
    ensures |r| == n
  {
    seq(n, i requires 0 <= i < n => UvAt(data, p + UV_PAIR_SIZE * i))
  }

  /** ReadVertexUVBuffer's start: skip 4 bytes per vertex, then realign. */
  function UvStart(p: nat, n: nat): nat
  {
    AlignBit4(p + UV_PAIR_SIZE * n)
  }

  // ---------------------------------------------------------------------
  // The traversal

  /** A step's result paired with the cursor it leaves. */
  function WithCursor<T>(r: Result<T, Fault>, p: nat): Result<(T, nat), Fault>
  {
    match r
    case Ok(v) => Ok((v, p))
    case Err(e) => Err(e)
  }

  predicate WellFormedSubdivision(s: Subdivision)
  {
    |s.positions| == s.header.vertexCount && |s.uvs| == s.header.vertexCount
  }

  predicate WellFormedSubmesh(m: Submesh)
  {
    |m.subdivisions| == m.header.subdivisionAmount &&
    forall s :: s in m.subdivisions ==> WellFormedSubdivision(s)
  }

  /** Every count the file declares is the number of entities decoded. */
  predicate WellFormed(mesh: Mesh)
  {
    |mesh.submeshes| == mesh.submeshAmount &&
    forall m :: m in mesh.submeshes ==> WellFormedSubmesh(m)
  }

  /**
   * A submesh header: scan for "mdb" from p, skip the window and one byte,
   * read the 8-byte MDBInfoHeader, skip 4. Yields the header and the cursor.
   */
  function ReadSubmeshHeader(data: seq<Byte>, window: nat, p: nat): (r: Result<(MdbInfoHeader, nat), Fault>)
    ensures r.Ok? ==> p + window + 1 + MDB_HEADER_SIZE + 4 <= r.value.1 <= |data| + 4 &&
                      r.value.0 == MdbHeaderAt(data, r.value.1 - 4 - MDB_HEADER_SIZE)
  {
    match ScanToken(data, p, window, MDB_TOKEN)
    case None => Err(MarkerNotFound)
    case Some(m) =>
      var h := m + window + 1;
      if |data| < h + MDB_HEADER_SIZE then Err(Truncated)
      else Ok((MdbHeaderAt(data, h), h + MDB_HEADER_SIZE + 4))
  }

  /**
   * Subdivision number `index` of a submesh, with the cursor at p: realign
   * unless it is the first, scan for 0x20, read the 20-byte header after it,
   * skip 8, read n positions, skip 4n and realign, read n uv pairs.
   */
  function ReadSubdivision(data: seq<Byte>, p: nat, index: nat): (r: Result<(Subdivision, nat), Fault>)
    ensures r.Ok? ==> WellFormedSubdivision(r.value.0)
    ensures r.Ok? ==> r.value.1 >= p + 32 + 24 * r.value.0.header.vertexCount
  {
    var start := if index > 0 then AlignBit4(p) else p;
    match ScanMagic(data, start)
    case None => Err(MarkerNotFound)
    case Some(m) =>
      var h := m + 4;
      if |data| < h + SUBDIVISION_HEADER_SIZE then Err(Truncated)
      else
        var header := SubdivisionHeaderAt(data, h);
        var n := header.vertexCount;
        var positionStart := h + SUBDIVISION_HEADER_SIZE + 8;
        var positionEnd := positionStart + VERTEX_POSITION_SIZE * n;
        if !Available(data, positionStart, VERTEX_POSITION_SIZE * n) then Err(Truncated)
        else
          var uvStart := UvStart(positionEnd, n);
          if !Available(data, uvStart, UV_PAIR_SIZE * n) then Err(Truncated)
          else
            ScanMagicLeast(data, start);
            AlignBit4Least(p);
            AlignBit4Least(positionEnd + UV_PAIR_SIZE * n);
            Ok((Subdivision(header, PositionsAt(data, positionStart, n), UvsAt(data, uvStart, n)),
                uvStart + UV_PAIR_SIZE * n))
  }

  /** Subdivisions index .. amount-1 appended to acc, in file order. */
  function ReadSubdivisions(data: seq<Byte>, p: nat, index: nat, amount: nat, acc: seq<Subdivision>)
    : (r: Result<(seq<Subdivision>, nat), Fault>)
    ensures r.Ok? ==> acc <= r.value.0 && p <= r.value.1
    decreases amount - index
  {
    if amount <= index then Ok((acc, p))
    else
      match ReadSubdivision(data, p, index)
      case Err(e) => Err(e)
      case Ok((s, q)) => ReadSubdivisions(data, q, index + 1, amount, acc + [s])
  }

  function ReadSubmesh(data: seq<Byte>, window: nat, p: nat): (r: Result<(Submesh, nat), Fault>)
    ensures r.Ok? ==> WellFormedSubmesh(r.value.0) && p <= r.value.1
  {
    match ReadSubmeshHeader(data, window, p)
    case Err(e) => Err(e)
    case Ok((header, q)) =>
      ReadSubdivisionsShape(data, q, 0, header.subdivisionAmount, []);
      ScanTokenLeast(data, p, window, MDB_TOKEN);
      match ReadSubdivisions(data, q, 0, header.subdivisionAmount, [])
      case Err(e) => Err(e)
      case Ok((subdivisions, r)) => Ok((Submesh(header, subdivisions), r))
  }

  /** Submeshes index .. amount-1 appended to acc, in file order. */
  function ReadSubmeshes(data: seq<Byte>, window: nat, p: nat, index: nat, amount: nat, acc: seq<Submesh>)
    : (r: Result<(seq<Submesh>, nat), Fault>)
    ensures r.Ok? ==> acc <= r.value.0 && p <= r.value.1
    decreases amount - index
  {
    if amount <= index then Ok((acc, p))
    else
      match ReadSubmesh(data, window, p)
      case Err(e) => Err(e)
      case Ok((m, q)) => ReadSubmeshes(data, window, q, index + 1, amount, acc + [m])
  }

  /**
   * ExportMD's decode with a `window`-byte "mdb" window: check the signature,
   * read SubmeshAmount at 0x08, then walk the submeshes from 0x10.
   */
  function Decode(data: seq<Byte>, window: nat): (r: Result<ExportOutcome, Fault>)
    ensures r.Ok? && r.value.Exported? ==>
              ValidSignature(data) && |data| >= INFO_HEADER_OFFSET + 4 &&
              r.value.mesh.submeshAmount == U32At(data, INFO_HEADER_OFFSET)
  {
    if !ValidSignature(data) then Ok(WrongSignature)
    else if |data| < INFO_HEADER_OFFSET + 4 then Err(Truncated)
    else
      var amount := U32At(data, INFO_HEADER_OFFSET);
      match ReadSubmeshes(data, window, FIRST_LINE_OFFSET, 0, amount, [])
      case Err(e) => Err(e)
      case Ok((submeshes, _)) => Ok(Exported(Mesh(amount, submeshes)))
  }

  lemma {:induction false} ReadSubdivisionsShape(data: seq<Byte>, p: nat, index: nat, amount: nat, acc: seq<Subdivision>)
    requires index <= amount
    requires forall s :: s in acc ==> WellFormedSubdivision(s)
    ensures ReadSubdivisions(data, p, index, amount, acc).Ok? ==>
              var r := ReadSubdivisions(data, p, index, amount, acc).value;
              |r.0| == |acc| + amount - index && r.0[..|acc|] == acc &&
              (forall s :: s in r.0 ==> WellFormedSubdivision(s)) && p <= r.1
    decreases amount - index
  {
    if index < amount {
      match ReadSubdivision(data, p, index)
      case Err(_) =>
      case Ok((s, q)) =>
        ReadSubdivisionsShape(data, q, index + 1, amount, acc + [s]);
        var whole := ReadSubdivisions(data, q, index + 1, amount, acc + [s]);
        if whole.Ok? {
          var r := whole.value.0;
          assert r[..|acc| + 1] == acc + [s];
          assert r[..|acc|] == acc;
        }
    }
  }

  lemma {:induction false} ReadSubmeshesShape(data: seq<Byte>, window: nat, p: nat, index: nat, amount: nat, acc: seq<Submesh>)
    requires index <= amount
    requires forall m :: m in acc ==> WellFormedSubmesh(m)
    ensures ReadSubmeshes(data, window, p, index, amount, acc).Ok? ==>
              var r := ReadSubmeshes(data, window, p, index, amount, acc).value;
              |r.0| == |acc| + amount - index && r.0[..|acc|] == acc &&
              (forall m :: m in r.0 ==> WellFormedSubmesh(m)) && p <= r.1
    decreases amount - index
  {
    var step := ReadSubmesh(data, window, p);
    if index < amount && step.Ok? {
      var m, q := step.value.0, step.value.1;
      assert ReadSubmeshes(data, window, p, index, amount, acc) == ReadSubmeshes(data, window, q, index + 1, amount, acc + [m]);
      ReadSubmeshesShape(data, window, q, index + 1, amount, acc + [m]);
      var whole := ReadSubmeshes(data, window, q, index + 1, amount, acc + [m]);
      if whole.Ok? {
        var r := whole.value.0;
        assert r[..|acc| + 1] == acc + [m];
        assert r[..|acc|] == acc;
      }
    }
  }

  /**
   * A submesh header is the least "mdb" probe from p; the 8-byte header is
   * read one byte past the window, and the cursor ends 4 bytes after it.
   */
  lemma ReadSubmeshHeaderLayout(data: seq<Byte>, window: nat, p: nat)
    requires ReadSubmeshHeader(data, window, p).Ok?
    ensures var m := ScanToken(data, p, window, MDB_TOKEN).value;
            var r := ReadSubmeshHeader(data, window, p).value;
            IsProbe(p, m) && TokenAt(data, m, window, MDB_TOKEN) &&
            (forall q: nat :: IsProbe(p, q) && q < m ==> !TokenAt(data, q, window, MDB_TOKEN)) &&
            m + window + 1 + MDB_HEADER_SIZE <= |data| &&
            r.0 == MdbHeaderAt(data, m + window + 1) &&
            r.1 == m + window + 1 + MDB_HEADER_SIZE + 4
  {
    ScanTokenLeast(data, p, window, MDB_TOKEN);
  }

  /**
   * Subdivision `index` sits at the least 0x20 probe m from p (from the
   * realigned p when index > 0); its vertex count is the u16 16 bytes into
   * the header after m; position i is at m + 32 + 16i; uv pair i is 4i past
   * the realigned end of the positions and their 4n skipped bytes; the
   * cursor ends after the last uv pair.
   */
  lemma ReadSubdivisionLayout(data: seq<Byte>, p: nat, index: nat)
    requires ReadSubdivision(data, p, index).Ok?
    ensures var start := if index > 0 then AlignBit4(p) else p;
            var m := ScanMagic(data, start).value;
            var s := ReadSubdivision(data, p, index).value.0;
            var n := s.header.vertexCount;
            var uvStart := AlignBit4(m + 32 + 20 * n);
            IsProbe(start, m) && MagicAt(data, m) &&
            (forall q: nat :: IsProbe(start, q) && q < m ==> !MagicAt(data, q)) &&
            n == U16At(data, m + 4 + 16) &&
            (forall i :: 0 <= i < n ==> m + 32 + 16 * i + 16 <= |data| &&
                                        s.positions[i] == PositionAt(data, m + 32 + 16 * i)) &&
            (forall i :: 0 <= i < n ==> uvStart + 4 * i + 4 <= |data| &&
                                        s.uvs[i] == UvAt(data, uvStart + 4 * i)) &&
            ReadSubdivision(data, p, index).value.1 == uvStart + 4 * n
  {
    var start := if index > 0 then AlignBit4(p) else p;
    ScanMagicLeast(data, start);
  }

  /**
   * A decoded mesh has exactly SubmeshAmount submeshes, each with exactly
   * SubdivisionAmount subdivisions, each with VertexCount positions and
   * VertexCount uv pairs.
   */
  lemma DecodeWellFormed(data: seq<Byte>, window: nat)
    requires Decode(data, window).Ok? && Decode(data, window).value.Exported?
    ensures |data| >= INFO_HEADER_OFFSET + 4
    ensures Decode(data, window).value.mesh.submeshAmount == U32At(data, INFO_HEADER_OFFSET)
    ensures WellFormed(Decode(data, window).value.mesh)
  {
    ReadSubmeshesShape(data, window, FIRST_LINE_OFFSET, 0, U32At(data, INFO_HEADER_OFFSET), []);
  }

  /** A bad signature is reported as such, and only a bad signature is. */
  lemma DecodeSignature(data: seq<Byte>, window: nat)
    ensures Decode(data, window) == Ok(WrongSignature) <==> !ValidSignature(data)
    ensures Decode(data, window).Ok? ==> (Status(Decode(data, window).value) == MdOk <==> ValidSignature(data))
  {
  }
}
