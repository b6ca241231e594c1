/** The dense voxel buffer of ts/model/work.ts: linear addressing `mapIndex`,
    the packed material word, and the two typed arrays of `WorkData`. */
module Grid {

  /** Voxels along each axis of the grid (`WorkDataConstants.GRID_SIZE`). */
  const GRID_SIZE: nat := 256

  /** Number of voxels, and the length of both arrays of `WorkData`. */
  const CELL_COUNT: nat := GRID_SIZE * GRID_SIZE * GRID_SIZE

  /** A coordinate triple lies inside the grid. */
  predicate InGrid(x: int, y: int, z: int)
  {
    0 <= x < GRID_SIZE && 0 <= y < GRID_SIZE && 0 <= z < GRID_SIZE
  }

  /** The x-major cell of a linear index: the inverse of `MapIndex`. */
  datatype Cell = Cell(x: int, y: int, z: int)

  function Unmap(i: int): (c: Cell)
    requires 0 <= i < CELL_COUNT
    ensures InGrid(c.x, c.y, c.z)
  {
    Cell(i % GRID_SIZE, (i / GRID_SIZE) % GRID_SIZE, i / (GRID_SIZE * GRID_SIZE))
  }

  /** `mapIndex(x, y, z)`. Inside the grid it lands in the arrays and `Unmap`
      recovers the coordinates, so no two cells share an index. Outside the grid
      the source performs no check and neither does this function. */
  function MapIndex(x: int, y: int, z: int): (i: int)
    ensures InGrid(x, y, z) ==> 0 <= i < CELL_COUNT && Unmap(i) == Cell(x, y, z)
  {
    x + GRID_SIZE * (y + GRID_SIZE * z)
  }

  /** Every index of the arrays is the image of exactly the cell `Unmap` gives. */
  lemma MapIndexOnto(i: int)
    requires 0 <= i < CELL_COUNT
    ensures MapIndex(Unmap(i).x, Unmap(i).y, Unmap(i).z) == i
  {
  }

  /** Distinct cells of the grid map to distinct indices. */
  lemma MapIndexInjective(x1: int, y1: int, z1: int, x2: int, y2: int, z2: int)
    requires InGrid(x1, y1, z1) && InGrid(x2, y2, z2)
    requires MapIndex(x1, y1, z1) == MapIndex(x2, y2, z2)
    ensures x1 == x2 && y1 == y2 && z1 == z2
  {
  }

  /** Material type codes of `e[31:30]`; other codes are reserved. */
  const DIELECTRIC: bv2 := 0
  const METAL: bv2 := 1

  /** The fields packed into one `material` word. */
  datatype Material = Material(red: bv8, green: bv8, blue: bv8, gloss: bv6, kind: bv2)

  /** Field extraction from a material word: red `e[7:0]`, green `e[15:8]`,
      blue `e[23:16]`, gloss `e[29:24]`, material type `e[31:30]`. */
  function Red(e: bv32): bv8 { (e & 0xFF) as bv8 }
  function Green(e: bv32): bv8 { ((e >> 8) & 0xFF) as bv8 }
  function Blue(e: bv32): bv8 { ((e >> 16) & 0xFF) as bv8 }
  function Gloss(e: bv32): bv6 { ((e >> 24) & 0x3F) as bv6 }
  function Kind(e: bv32): bv2 { (e >> 30) as bv2 }

  /** Packs the fields into one word. The bit ranges are disjoint and cover the
      word, so every field is read back unchanged. */
  function Pack(m: Material): (e: bv32)
    ensures Red(e) == m.red && Green(e) == m.green && Blue(e) == m.blue
    ensures Gloss(e) == m.gloss && Kind(e) == m.kind
  {
    (m.red as bv32)
    | ((m.green as bv32) << 8)
    | ((m.blue as bv32) << 16)
    | ((m.gloss as bv32) << 24)
    | ((m.kind as bv32) << 30)
  }

  /** Splits a word into its fields; packing them again gives the same word, so
      no bit of the word lies outside the five fields. */
  function Unpack(e: bv32): (m: Material)
    ensures Pack(m) == e
  {
    Material(Red(e), Green(e), Blue(e), Gloss(e), Kind(e))
  }

  /** Element types of the two typed arrays (`Uint8Array`, `Uint32Array`). */
  newtype Byte = x: int | 0 <= x < 0x100
  newtype Word = x: int | 0 <= x < 0x1_0000_0000

  /** The material fields of a stored word. */
  function MaterialOf(w: Word): Material
  {
    Unpack(w as bv32)
  }

  /** The work data: per-voxel density (`Uint8Array`) and material
      (`Uint32Array`), both stored in x-major order. */
  datatype WorkData = WorkData(density: seq<Byte>, material: seq<Word>)

  /** Both arrays have the fixed length `GRID_SIZE³`. */
  predicate WellSized(d: WorkData)
  {
    |d.density| == CELL_COUNT && |d.material| == CELL_COUNT
  }

  /** `new WorkData()`: both typed arrays freshly allocated, hence zero-filled. */
  function NewWorkData(): (d: WorkData)
    ensures WellSized(d)
    ensures forall i :: 0 <= i < CELL_COUNT ==> d.density[i] == 0 && d.material[i] == 0
  {
    WorkData(seq(CELL_COUNT, _ => 0 as Byte), seq(CELL_COUNT, _ => 0 as Word))
  }

  /** `density[mapIndex(x, y, z)] = v` with typed-array semantics: the value is
      reduced modulo 2^8, and an index outside the array is ignored. Coordinates
      are not checked against the grid, so the border cell `(0, 0, 0)` is
      writable like any other. */
  function SetDensity(d: WorkData, x: int, y: int, z: int, v: int): (r: WorkData)
    ensures |r.density| == |d.density| && r.material == d.material
    ensures forall j :: 0 <= j < |d.density| && j != MapIndex(x, y, z) ==> r.density[j] == d.density[j]
    ensures 0 <= MapIndex(x, y, z) < |d.density| ==> r.density[MapIndex(x, y, z)] as int == v % 0x100
    ensures !(0 <= MapIndex(x, y, z) < |d.density|) ==> r == d
  {
    var i := MapIndex(x, y, z);
    if 0 <= i < |d.density| then d.(density := d.density[i := (v % 0x100) as Byte]) else d
  }

  /** `material[mapIndex(x, y, z)] = v` with typed-array semantics: the value is
      reduced modulo 2^32, and an index outside the array is ignored. */
  function SetMaterial(d: WorkData, x: int, y: int, z: int, v: int): (r: WorkData)
    ensures |r.material| == |d.material| && r.density == d.density
    ensures forall j :: 0 <= j < |d.material| && j != MapIndex(x, y, z) ==> r.material[j] == d.material[j]
    ensures 0 <= MapIndex(x, y, z) < |d.material| ==> r.material[MapIndex(x, y, z)] as int == v % 0x1_0000_0000
    ensures !(0 <= MapIndex(x, y, z) < |d.material|) ==> r == d
  {
    var i := MapIndex(x, y, z);
    if 0 <= i < |d.material| then d.(material := d.material[i := (v % 0x1_0000_0000) as Word]) else d
  }

  /** Writing a density inside the grid and reading it back gives the written
      byte, even on the border that the ray tracer expects to stay empty: the
      buffer itself enforces no border rule. */
  lemma DensityReadBack(d: WorkData, x: int, y: int, z: int, v: int)
    requires WellSized(d) && InGrid(x, y, z) && 0 <= v < 256
    ensures SetDensity(d, x, y, z, v).density[MapIndex(x, y, z)] as int == v
  {
  }
}
