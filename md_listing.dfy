/**
 * What ExportMD of src/main.cpp emits for each subdivision, as values rather
 * than text: the list name `<prefix>_NN_NN`, the VertexInput entries and the
 * triangle-strip index triples.
 */
module MdListing {
  import opened Wrappers
  import opened Bytes
  import opened MdFormat

  // ---------------------------------------------------------------------
  // The list name

  /**
   * StringGetFirstNotOf(source, element, dest): the part of source before the
   * first `element`, when that occurrence is not at index 0. Otherwise dest
   * is left as it was (None).
   */
  method StringGetFirstNotOf(source: string, element: char) returns (dest: Option<string>)
    ensures dest.Some? <==> element in source && source[0] != element
    ensures dest.Some? ==> 0 < |dest.value| < |source| && dest.value == source[..|dest.value|] &&
                           source[|dest.value|] == element && element !in dest.value
  {
    var sourceLength := |source|;
    var elementIndex := 0;
    for index := 0 to sourceLength
      invariant element !in source[..index]
      invariant elementIndex == 0
    {
      if source[index] == element {
        elementIndex := index;
        break;
      }
    }
    if elementIndex > 0 {
      dest := Some(source[..elementIndex]);
    } else {
      dest := None;
    }
  }

  function Digit(d: nat): char
    requires d < 10
  {
    ('0' as int + d) as char
  }

  /** "%02d" of a number below 100. */
  function TwoDigits(k: nat): string
    requires k < 100
  {
    [Digit(k / 10), Digit(k % 10)]
  }

  /** The number two decimal digits spell. */
  function TwoDigitValue(s: string): int
    requires |s| == 2
  {
    (s[0] as int - '0' as int) * 10 + (s[1] as int - '0' as int)
  }

  /**
   * The vertex list name: the prefix followed by sprintf("_%02d_%02d") of the
   * 1-based submesh and subdivision numbers. vertexListId has room for this
   * only while both numbers are below 100.
   */
  function ListName(prefix: string, submeshNumber: nat, subdivisionNumber: nat): string
    requires submeshNumber < 100 && subdivisionNumber < 100
  {
    prefix + "_" + TwoDigits(submeshNumber) + "_" + TwoDigits(subdivisionNumber)
  }

  /** The prefix and both numbers can be read back from a list name. */
  lemma ListNameRoundTrip(prefix: string, submeshNumber: nat, subdivisionNumber: nat)
    requires submeshNumber < 100 && subdivisionNumber < 100
    ensures var name := ListName(prefix, submeshNumber, subdivisionNumber);
            var k := |prefix|;
            |name| == k + 6 && name[..k] == prefix && name[k] == '_' && name[k + 3] == '_' &&
            TwoDigitValue(name[k + 1..k + 3]) == submeshNumber &&
            TwoDigitValue(name[k + 4..]) == subdivisionNumber
  {
    var name := ListName(prefix, submeshNumber, subdivisionNumber);
    var k := |prefix|;
    assert name[k + 1..k + 3] == TwoDigits(submeshNumber);
    assert name[k + 4..] == TwoDigits(subdivisionNumber);
  }

  /** Distinct (submesh, subdivision) numbers give distinct names. */
  lemma ListNameInjective(prefix: string, a: nat, b: nat, c: nat, d: nat)
    requires a < 100 && b < 100 && c < 100 && d < 100
    requires ListName(prefix, a, b) == ListName(prefix, c, d)
    ensures a == c && b == d
  {
    ListNameRoundTrip(prefix, a, b);
    ListNameRoundTrip(prefix, c, d);
  }

  // ---------------------------------------------------------------------
  // The index list

  /**
   * The triangle-strip triples of n vertices: one triple per vertex from the
   * third on, the i-th being (i, i+1, i+2). Fewer than three vertices make no
   * triangle.
   */
  function StripTriples(n: nat): (r: seq<(nat, nat, nat)>)
    ensures |r| == if n < 2 then 0 else n - 2
    ensures forall i :: 0 <= i < |r| ==> r[i] == (i, i + 1, i + 2)
  {
    if n <= 2 then [] else StripTriples(n - 1) + [(n - 3, n - 2, n - 1)]
  }

  /** Consecutive triples share two vertices, as a strip's triangles do. */
  lemma StripTriplesShareEdges(n: nat, i: nat)
    requires i + 1 < |StripTriples(n)|
    ensures StripTriples(n)[i].1 == StripTriples(n)[i + 1].0
    ensures StripTriples(n)[i].2 == StripTriples(n)[i + 1].1
  {
  }

  /** WriteIndices: `for (index = 0; index < size - 2; ++index)` one triple each. */
  method WriteIndices(size: nat) returns (indices: seq<(nat, nat, nat)>)
    requires size >= 2
    ensures indices == StripTriples(size)
  {
    indices := [];
    for index := 0 to size - 2
      invariant indices == StripTriples(index + 2)
    {
      indices := indices + [(index, index + 1, index + 2)];
    }
  }

  /** The loop bound `size - 2` as written: uint32_t arithmetic, which wraps. */
  function IndexCountAsWritten(size: U32): U32
  {
    (size + 0x1_0000_0000 - 2) % 0x1_0000_0000
  }

  /**
   * As written, a subdivision of 0 or 1 vertices emits about four billion
   * triples instead of none; from 2 vertices on the bound is size - 2.
   */
  lemma IndexCountAsWrittenWraps(size: U32)
    ensures size >= 2 ==> IndexCountAsWritten(size) == |StripTriples(size)|
    ensures IndexCountAsWritten(0) == 0xFFFF_FFFE && IndexCountAsWritten(1) == 0xFFFF_FFFF
    ensures size < 2 ==> IndexCountAsWritten(size) != |StripTriples(size)|
  {
  }

  // ---------------------------------------------------------------------
  // The vertex list

  /** VertexInput: TexCoord[2], DiffuseColor, Position[3]. */
  datatype VertexInput = VertexInput(texCoord: VertexUv, diffuseColor: U32, position: (U32, U32, U32))

  const DIFFUSE_COLOR: U32 := 0xFFFF_FFFF

  /** What WriteVertexInputToFile writes for one vertex. */
  function VertexEntry(p: VertexPosition, uv: VertexUv): VertexInput
  {
    VertexInput(uv, DIFFUSE_COLOR, (p.x, p.y, p.z))
  }

  /** A vertex's entry does not depend on its strip flag. */
  lemma StripFlagIgnored(p: VertexPosition, uv: VertexUv, flag: U32)
    ensures VertexEntry(p.(stripFlag := flag), uv) == VertexEntry(p, uv)
  {
  }

  /**
   * WriteBuffersToVertexList: one entry per vertex, in index order, pairing
   * position i with uv i; the strip-flag test has two identical branches.
   */
  method WriteBuffersToVertexList(vertexPosBuffer: seq<VertexPosition>, vertexUVBuffer: seq<VertexUv>, size: nat)
    returns (entries: seq<VertexInput>)
    requires size <= |vertexPosBuffer| && size <= |vertexUVBuffer|
    ensures |entries| == size
    ensures forall i :: 0 <= i < size ==> entries[i] == VertexEntry(vertexPosBuffer[i], vertexUVBuffer[i])
  {
    entries := [];
    for index := 0 to size
      invariant |entries| == index
      invariant forall i :: 0 <= i < index ==> entries[i] == VertexEntry(vertexPosBuffer[i], vertexUVBuffer[i])
    {
      if vertexPosBuffer[index].stripFlag == STRIP_FLAG_SKIP {
        entries := entries + [VertexEntry(vertexPosBuffer[index], vertexUVBuffer[index])];
      } else {
        entries := entries + [VertexEntry(vertexPosBuffer[index], vertexUVBuffer[index])];
      }
    }
  }

  /** The texture coordinate a raw pair stands for: u·8/32767 and 1 − v·8/32767, without rounding. */
  function TexCoord(uv: VertexUv): (real, real)
  {
    ((uv.u as real / 32767.0) * 8.0, 1.0 - (uv.v as real / 32767.0) * 8.0)
  }

  lemma TexCoordEndpoints()
    ensures TexCoord(VertexUv(32767, 32767)) == (8.0, -7.0)
    ensures TexCoord(VertexUv(0, 0)) == (0.0, 1.0)
  {
  }

  // ---------------------------------------------------------------------
  // The listing of a decoded mesh

  datatype VertexListing = VertexListing(name: string, vertices: seq<VertexInput>, indices: seq<(nat, nat, nat)>)

  /** What ExportMD writes for subdivision j (0-based) of submesh i (0-based). */
  function Listing(prefix: string, i: nat, j: nat, s: Subdivision): VertexListing
    requires i < 99 && j < 99
    requires |s.positions| == |s.uvs|
  {
    VertexListing(ListName(prefix, i + 1, j + 1),
                  seq(|s.positions|, k requires 0 <= k < |s.positions| => VertexEntry(s.positions[k], s.uvs[k])),
                  StripTriples(|s.positions|))
  }

  predicate Listable(mesh: Mesh)
  {
    WellFormed(mesh) && |mesh.submeshes| < 100 &&
    forall m :: m in mesh.submeshes ==> |m.subdivisions| < 100
  }

  /** The listings of every subdivision, submesh by submesh, in file order. */
  function ListingsOf(mesh: Mesh, prefix: string): (r: seq<seq<VertexListing>>)
    requires Listable(mesh)
    ensures |r| == |mesh.submeshes|
    ensures forall i :: 0 <= i < |r| ==> |r[i]| == |mesh.submeshes[i].subdivisions|
  {
    seq(|mesh.submeshes|, i requires 0 <= i < |mesh.submeshes| =>
      var m := mesh.submeshes[i];
      assert m in mesh.submeshes;
      seq(|m.subdivisions|, j requires 0 <= j < |m.subdivisions| =>
        assert m.subdivisions[j] in m.subdivisions;
        Listing(prefix, i, j, m.subdivisions[j])))
  }

  /**
   * Every listing of a mesh gets its own name, and listing (i, j) holds one
   * entry per vertex of that subdivision and its strip triples.
   */
  lemma ListingsDistinct(mesh: Mesh, prefix: string)
    requires Listable(mesh)
    ensures var r := ListingsOf(mesh, prefix);
            forall i, j, i', j' ::
              0 <= i < |r| && 0 <= j < |r[i]| && 0 <= i' < |r| && 0 <= j' < |r[i']| && (i, j) != (i', j') ==>
              r[i][j].name != r[i'][j'].name
    ensures var r := ListingsOf(mesh, prefix);
            forall i, j :: 0 <= i < |r| && 0 <= j < |r[i]| ==>
              var s := mesh.submeshes[i].subdivisions[j];
              |r[i][j].vertices| == s.header.vertexCount &&
              |r[i][j].indices| == (if s.header.vertexCount < 2 then 0 else s.header.vertexCount - 2)
  {
    var r: seq<seq<VertexListing>> := ListingsOf(mesh, prefix);
    forall i: int, j: int, i': int, j': int |
      0 <= i < |r| && 0 <= j < |r[i]| && 0 <= i' < |r| && 0 <= j' < |r[i']| && (i, j) != (i', j')
      ensures r[i][j].name != r[i'][j'].name
    {
      assert mesh.submeshes[i] in mesh.submeshes;
      assert mesh.submeshes[i'] in mesh.submeshes;
      if r[i][j].name == r[i'][j'].name {
        ListNameInjective(prefix, i + 1, j + 1, i' + 1, j' + 1);
      }
    }
    forall i: int, j: int | 0 <= i < |r| && 0 <= j < |r[i]|
      ensures var s := mesh.submeshes[i].subdivisions[j];
              |r[i][j].vertices| == s.header.vertexCount
    {
      assert mesh.submeshes[i] in mesh.submeshes;
      assert mesh.submeshes[i].subdivisions[j] in mesh.submeshes[i].subdivisions;
    }
  }
}
