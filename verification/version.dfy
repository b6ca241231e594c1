/** The copy-on-write version chain of ts/model/work.ts: `WorkDataVersion`, the
    mutation context handed to a transformer, and `createWork`.

    Version objects live in a heap (`seq<Node>`) and are referred to by index.
    Each node keeps the source's three nullable fields; the invariant that a node
    either owns the data or has both a successor and a dirty region is proved to
    be kept by `Create` and `Mutate`. */
module Version {
  import opened Wrappers
  import Region
  import Grid

  /** A reference to a version: its index in the heap. */
  type Ref = nat

  /** `WorkDataVersion`'s private fields `_data`, `_successor`, `_dirtyRegion`. */
  datatype Node = Node(data: Option<Grid.WorkData>, successor: Option<Ref>, dirtyRegion: Option<Region.Aabb>)

  /** Every version object allocated so far. */
  type Heap = seq<Node>

  /** The latest version of its timeline: holds the data, nothing else. */
  predicate Owning(n: Node)
  {
    n.data.Some? && n.successor.None? && n.dirtyRegion.None?
  }

  /** An out-dated version: knows its successor and what changed, holds no data. */
  predicate Superseded(n: Node)
  {
    n.data.None? && n.successor.Some? && n.dirtyRegion.Some?
  }

  /** The heap invariant: every node is in exactly one of the two states (they
      are exclusive by definition), successors point forward into the heap, and
      no two nodes share a successor, so timelines never branch. */
  predicate Valid(h: Heap)
  {
    && (forall v :: 0 <= v < |h| ==> Owning(h[v]) || Superseded(h[v]))
    && (forall v :: 0 <= v < |h| && h[v].successor.Some? ==> v < h[v].successor.value < |h|)
    && (forall v, w :: 0 <= v < w < |h| && h[v].successor.Some? && h[w].successor.Some?
          ==> h[v].successor.value != h[w].successor.value)
  }

  /** The errors the source throws. */
  datatype Error =
    | StaleVersion    // `expectData` on a version without data ("Out-dated")
    | StaleMutation   // `mutate` on an out-dated version
    | TransformerThrew  // the transformer itself threw; `mutate` propagates it

  /** `WorkDataVersion.create(data)`: a new version, appended at index `|h|`,
      that owns `data`. Nothing already allocated changes. */
  function Create(h: Heap, d: Grid.WorkData): (r: Heap)
    ensures |r| == |h| + 1 && r[..|h|] == h
    ensures Owning(r[|h|]) && r[|h|].data == Some(d)
    ensures Valid(h) ==> Valid(r)
  {
    h + [Node(Some(d), None, None)]
  }

  /** The `head` getter: follows successors to the latest version, the one
      without a successor, which is therefore the one owning the data. */
  function Head(h: Heap, v: Ref): (r: Ref)
    requires Valid(h) && v < |h|
    ensures v <= r < |h|
    ensures h[r].successor.None? && Owning(h[r])
    ensures h[v].successor.None? ==> r == v
    decreases |h| - v
  {
    if h[v].successor.Some? then Head(h, h[v].successor.value) else v
  }

  /** The versions visited by `head` from `v`, `v` first and the head last. */
  function Chain(h: Heap, v: Ref): (c: seq<Ref>)
    requires Valid(h) && v < |h|
    ensures |c| > 0 && c[0] == v && c[|c| - 1] == Head(h, v)
    ensures forall i :: 0 <= i < |c| ==> c[i] < |h|
    ensures forall i :: 0 <= i < |c| - 1 ==> Superseded(h[c[i]]) && h[c[i]].successor == Some(c[i + 1])
    ensures Owning(h[c[|c| - 1]])
    decreases |h| - v
  {
    if h[v].successor.Some? then [v] + Chain(h, h[v].successor.value) else [v]
  }

  /** `expectData()`: the data, or "Out-dated" when this version holds none. */
  function ExpectData(h: Heap, v: Ref): (r: Result<Grid.WorkData, Error>)
    requires v < |h|
    ensures r.Ok? <==> h[v].data.Some?
    ensures r.Ok? ==> Some(r.value) == h[v].data
    ensures r.Err? ==> r.error == StaleVersion
  {
    if h[v].data.None? then Err(StaleVersion) else Ok(h[v].data.value)
  }

  /** In a valid heap only the head of a timeline yields its data: `expectData`
      succeeds exactly on the version `head` returns. */
  lemma ExpectDataOnlyAtHead(h: Heap, v: Ref)
    requires Valid(h) && v < |h|
    ensures ExpectData(h, v).Ok? <==> Head(h, v) == v
  {
  }

  /** What a transformer does with its context, one call at a time: write a
      density or material cell of `context.data`, call `markDirty`, or throw. */
  datatype EditOp =
    | WriteDensity(x: int, y: int, z: int, value: int)
    | WriteMaterial(x: int, y: int, z: int, value: int)
    | MarkDirty(min: Region.Vec3, max: Region.Vec3)
    | Throw

  /** A transformer, as the sequence of calls it makes on its context. */
  type Edit = seq<EditOp>

  /** `WorkDataMutateContextImpl`: the data being edited and the dirty region
      accumulated so far. */
  datatype Context = Context(data: Grid.WorkData, dirtyRegion: Option<Region.Aabb>)

  /** The result of running a transformer: the final context, and whether it
      ended by throwing. */
  datatype Run = Run(context: Context, threw: bool)

  /** The transformer throws at some point. */
  predicate Throws(edit: Edit)
  {
    exists i :: 0 <= i < |edit| && edit[i].Throw?
  }

  /** The boxes passed to `markDirty` before the transformer returns or throws. */
  function Marks(edit: Edit): (ms: seq<Region.Aabb>)
    ensures |ms| <= |edit|
    ensures !Throws(edit) ==> forall i :: 0 <= i < |edit| && edit[i].MarkDirty? ==> Region.Aabb(edit[i].min, edit[i].max) in ms
    ensures (forall i :: 0 <= i < |edit| ==> !edit[i].MarkDirty?) ==> ms == []
    decreases |edit|
  {
    if |edit| == 0 || edit[0].Throw? then []
    else if edit[0].MarkDirty? then
      var rest := Marks(edit[1..]);
      assert forall i :: 1 <= i < |edit| ==> edit[i] == edit[1..][i - 1];
      [Region.Aabb(edit[0].min, edit[0].max)] + rest
    else
      assert forall i :: 1 <= i < |edit| ==> edit[i] == edit[1..][i - 1];
      Marks(edit[1..])
  }

  /** Every recorded box was passed to some `markDirty` call; with the
      contract of `Marks`, the recorded boxes of a transformer that returns
      normally are exactly those of its `markDirty` calls. */
  lemma MarksAreMarkCalls(edit: Edit, m: Region.Aabb)
    requires m in Marks(edit)
    ensures exists i :: 0 <= i < |edit| && edit[i] == MarkDirty(m.min, m.max)
    decreases |edit|
  {
  }

  /** The transformer makes no write call. */
  predicate ReadOnly(edit: Edit)
  {
    forall i :: 0 <= i < |edit| ==> !edit[i].WriteDensity? && !edit[i].WriteMaterial?
  }

  /** One call on the context. */
  function Step(c: Context, op: EditOp): Context
    requires !op.Throw?
  {
    match op
    case WriteDensity(x, y, z, v) => c.(data := Grid.SetDensity(c.data, x, y, z, v))
    case WriteMaterial(x, y, z, v) => c.(data := Grid.SetMaterial(c.data, x, y, z, v))
    case MarkDirty(min, max) => c.(dirtyRegion := Some(Region.MarkDirty(c.dirtyRegion, min, max)))
  }

  /** Runs the transformer against a context. The dirty region it leaves is the
      fold of its `markDirty` calls; it throws exactly when a `Throw` is reached;
      a transformer that writes nothing leaves the data as it was. */
  function RunEdit(c: Context, edit: Edit): (r: Run)
    ensures r.threw <==> Throws(edit)
    ensures r.context.dirtyRegion == Region.Fold(c.dirtyRegion, Marks(edit))
    ensures Grid.WellSized(c.data) ==> Grid.WellSized(r.context.data)
    ensures ReadOnly(edit) ==> r.context.data == c.data
    ensures |r.context.data.density| == |c.data.density| && |r.context.data.material| == |c.data.material|
    decreases |edit|
  {
    if |edit| == 0 then Run(c, false)
    else if edit[0].Throw? then Run(c, true)
    else
      EditTail(edit);
      RunEdit(Step(c, edit[0]), edit[1..])
  }

  /** How the predicates on a transformer split over its first call. */
  lemma EditTail(edit: Edit)
    requires |edit| > 0 && !edit[0].Throw?
    ensures Throws(edit) <==> Throws(edit[1..])
    ensures ReadOnly(edit) ==> ReadOnly(edit[1..]) && !edit[0].WriteDensity? && !edit[0].WriteMaterial?
    ensures Marks(edit) == if edit[0].MarkDirty? then [Region.Aabb(edit[0].min, edit[0].max)] + Marks(edit[1..]) else Marks(edit[1..])
  {
  }

  /** The calls a transformer actually makes: those before its first `Throw`,
      or all of them when it returns normally. */
  function Performed(edit: Edit): (p: Edit)
    ensures |p| <= |edit| && p == edit[..|p|]
    ensures forall i :: 0 <= i < |p| ==> !p[i].Throw?
    ensures |p| < |edit| <==> Throws(edit)
    ensures |p| < |edit| ==> edit[|p|].Throw?
    decreases |edit|
  {
    if |edit| == 0 || edit[0].Throw? then []
    else
      EditTail(edit);
      [edit[0]] + Performed(edit[1..])
  }

  /** The call writes the density cell at linear index `j`. */
  predicate WritesDensity(op: EditOp, j: int)
  {
    op.WriteDensity? && Grid.MapIndex(op.x, op.y, op.z) == j
  }

  /** The call writes the material cell at linear index `j`. */
  predicate WritesMaterial(op: EditOp, j: int)
  {
    op.WriteMaterial? && Grid.MapIndex(op.x, op.y, op.z) == j
  }

  /** The density cell `j` after a transformer runs: untouched when no call it
      makes writes `j`, and otherwise the last value written to `j`, reduced
      modulo 2^8 (later writes win). */
  lemma {:induction false} RunEditDensity(c: Context, edit: Edit, j: int)
    requires 0 <= j < |c.data.density|
    ensures (forall i :: 0 <= i < |Performed(edit)| ==> !WritesDensity(Performed(edit)[i], j)) ==>
      RunEdit(c, edit).context.data.density[j] == c.data.density[j]
    ensures forall i ::
      (0 <= i < |Performed(edit)| && WritesDensity(Performed(edit)[i], j) &&
       forall k :: i < k < |Performed(edit)| ==> !WritesDensity(Performed(edit)[k], j)) ==>
      RunEdit(c, edit).context.data.density[j] as int == Performed(edit)[i].value % 0x100
    decreases |edit|
  {
    if |edit| > 0 && !edit[0].Throw? {
      var p := Performed(edit);
      var p' := Performed(edit[1..]);
      assert p == [edit[0]] + p';
      var c' := Step(c, edit[0]);
      RunEditDensity(c', edit[1..], j);
      assert RunEdit(c, edit) == RunEdit(c', edit[1..]);
      forall i | 0 <= i < |p| && WritesDensity(p[i], j) && (forall k :: i < k < |p| ==> !WritesDensity(p[k], j))
        ensures RunEdit(c, edit).context.data.density[j] as int == p[i].value % 0x100
      {
        if i > 0 {
          assert p[i] == p'[i - 1];
          assert forall k :: i - 1 < k < |p'| ==> p'[k] == p[k + 1];
        } else {
          assert forall k :: 0 <= k < |p'| ==> p'[k] == p[k + 1];
        }
      }
      if forall i :: 0 <= i < |p| ==> !WritesDensity(p[i], j) {
        assert !WritesDensity(p[0], j);
        assert forall k :: 0 <= k < |p'| ==> p'[k] == p[k + 1];
      }
    }
  }

  /** The material cell `j` after a transformer runs: untouched when no call it
      makes writes `j`, and otherwise the last value written to `j`, reduced
      modulo 2^32 (later writes win). */
  lemma {:induction false} RunEditMaterial(c: Context, edit: Edit, j: int)
    requires 0 <= j < |c.data.material|
    ensures (forall i :: 0 <= i < |Performed(edit)| ==> !WritesMaterial(Performed(edit)[i], j)) ==>
      RunEdit(c, edit).context.data.material[j] == c.data.material[j]
    ensures forall i ::
      (0 <= i < |Performed(edit)| && WritesMaterial(Performed(edit)[i], j) &&
       forall k :: i < k < |Performed(edit)| ==> !WritesMaterial(Performed(edit)[k], j)) ==>
      RunEdit(c, edit).context.data.material[j] as int == Performed(edit)[i].value % 0x1_0000_0000
    decreases |edit|
  {
    if |edit| > 0 && !edit[0].Throw? {
      var p := Performed(edit);
      var p' := Performed(edit[1..]);
      assert p == [edit[0]] + p';
      var c' := Step(c, edit[0]);
      RunEditMaterial(c', edit[1..], j);
      assert RunEdit(c, edit) == RunEdit(c', edit[1..]);
      forall i | 0 <= i < |p| && WritesMaterial(p[i], j) && (forall k :: i < k < |p| ==> !WritesMaterial(p[k], j))
        ensures RunEdit(c, edit).context.data.material[j] as int == p[i].value % 0x1_0000_0000
      {
        if i > 0 {
          assert p[i] == p'[i - 1];
          assert forall k :: i - 1 < k < |p'| ==> p'[k] == p[k + 1];
        } else {
          assert forall k :: 0 <= k < |p'| ==> p'[k] == p[k + 1];
        }
      }
      if forall i :: 0 <= i < |p| ==> !WritesMaterial(p[i], j) {
        assert !WritesMaterial(p[0], j);
        assert forall k :: 0 <= k < |p'| ==> p'[k] == p[k + 1];
      }
    }
  }

  /** The data a transformer leaves behind, starting from `d`: the writes it
      made before returning or throwing, in place. */
  function Transformed(d: Grid.WorkData, edit: Edit): (r: Grid.WorkData)
    ensures Grid.WellSized(d) ==> Grid.WellSized(r)
    ensures ReadOnly(edit) ==> r == d
  {
    RunEdit(Context(d, None), edit).context.data
  }

  /** What `mutate` returns: the heap afterwards, and the version returned or
      the error thrown. */
  datatype Outcome = Outcome(heap: Heap, result: Result<Ref, Error>)

  /** `mutate(transformer)` on version `v`.

      An out-dated version is refused and nothing changes. Otherwise the
      transformer runs against a fresh context over the version's data, writing
      in place. If it throws, the writes stay and the error propagates. If it
      marked nothing dirty, the same version is returned. Otherwise a new
      version, appended at `|h|`, receives the same buffer, and `v` becomes
      superseded with the new version as successor and the accumulated box as
      dirty region. No other version changes. */
  function Mutate(h: Heap, v: Ref, edit: Edit): (r: Outcome)
    requires v < |h|
    ensures !Owning(h[v]) ==> r == Outcome(h, Err(StaleMutation))
    ensures Owning(h[v]) ==> (r.result.Err? <==> Throws(edit))
    ensures Owning(h[v]) && Throws(edit) ==>
      && r.result == Err(TransformerThrew) && |r.heap| == |h|
      && r.heap[v] == Node(Some(Transformed(h[v].data.value, edit)), None, None)
    ensures Owning(h[v]) && !Throws(edit) && Marks(edit) == [] ==>
      && r.result == Ok(v) && |r.heap| == |h|
      && r.heap[v] == Node(Some(Transformed(h[v].data.value, edit)), None, None)
    ensures Owning(h[v]) && !Throws(edit) && Marks(edit) != [] ==>
      && r.result == Ok(|h|) && |r.heap| == |h| + 1
      && r.heap[v] == Node(None, Some(|h|), Region.Accumulate(Marks(edit)))
      && r.heap[|h|] == Node(Some(Transformed(h[v].data.value, edit)), None, None)
    ensures |h| <= |r.heap|
    ensures forall u :: 0 <= u < |h| && u != v ==> r.heap[u] == h[u]
    ensures r.result.Ok? ==> r.result.value < |r.heap|
    ensures Valid(h) ==> Valid(r.heap)
  {
    var n := h[v];
    if n.data.None? || n.successor.Some? || n.dirtyRegion.Some? then
      Outcome(h, Err(StaleMutation))
    else
      var run := RunEdit(Context(n.data.value, None), edit);
      var data := run.context.data;
      if run.threw then
        Outcome(h[v := Node(Some(data), None, None)], Err(TransformerThrew))
      else if run.context.dirtyRegion.Some? then
        var h' := h[v := Node(None, Some(|h|), run.context.dirtyRegion)] + [Node(Some(data), None, None)];
        assert Valid(h) ==> Valid(h') by {
          if Valid(h) {
            assert forall u :: 0 <= u < |h| && u != v ==> h'[u] == h[u];
          }
        }
        Outcome(h', Ok(|h|))
      else
        Outcome(h[v := Node(Some(data), None, None)], Ok(v))
  }

  /** A transformer that neither writes nor marks leaves the heap exactly as it
      was; if it also returns normally, `mutate` hands back the same version. */
  lemma MutateReadOnlyChangesNothing(h: Heap, v: Ref, edit: Edit)
    requires v < |h| && Owning(h[v])
    requires ReadOnly(edit) && forall i :: 0 <= i < |edit| ==> !edit[i].MarkDirty?
    ensures Mutate(h, v, edit).heap == h
    ensures !Throws(edit) ==> Mutate(h, v, edit).result == Ok(v)
  {
  }

  /** Mutating any version but the head of its timeline is refused. */
  lemma MutateStaleRefused(h: Heap, v: Ref, edit: Edit)
    requires Valid(h) && v < |h| && Head(h, v) != v
    ensures Mutate(h, v, edit) == Outcome(h, Err(StaleMutation))
  {
  }

  /** After a recording mutation of a head `v`, every version whose head was `v`
      has the new version as head, and every other version keeps its head. */
  lemma {:induction false} MutateMovesHead(h: Heap, v: Ref, edit: Edit, u: Ref)
    requires Valid(h) && v < |h| && Owning(h[v])
    requires !Throws(edit) && Marks(edit) != []
    requires u < |h|
    ensures Head(Mutate(h, v, edit).heap, u) == (if Head(h, u) == v then |h| else Head(h, u))
    decreases |h| - u
  {
    var h' := Mutate(h, v, edit).heap;
    if u == v {
      assert h'[v].successor == Some(|h|);
    } else if h[u].successor.Some? {
      MutateMovesHead(h, v, edit, h[u].successor.value);
    }
  }

  /** A mutation records a change: it returns normally and marked something. */
  predicate Records(edit: Edit)
  {
    !Throws(edit) && Marks(edit) != []
  }

  /** A caller that keeps mutating the version it was last handed, stopping at
      the first error (the pattern of `Work.data` holders). */
  function MutateAll(h: Heap, v: Ref, edits: seq<Edit>): (r: Outcome)
    requires v < |h|
    ensures |h| <= |r.heap|
    ensures forall u :: 0 <= u < |h| && u != v ==> r.heap[u] == h[u]
    ensures r.result.Ok? ==> r.result.value < |r.heap|
    ensures Valid(h) ==> Valid(r.heap)
    decreases |edits|
  {
    if |edits| == 0 then Outcome(h, Ok(v))
    else
      var o := Mutate(h, v, edits[0]);
      if o.result.Err? then o
      else MutateAll(o.heap, o.result.value, edits[1..])
  }

  /** The boxes a consumer collects walking the timeline from `v` to its head:
      the dirty region of every superseded version on the way. */
  function DirtyRegions(h: Heap, v: Ref): (rs: seq<Region.Aabb>)
    requires Valid(h) && v < |h|
    ensures |rs| == |Chain(h, v)| - 1
    ensures forall i :: 0 <= i < |rs| ==> h[Chain(h, v)[i]].dirtyRegion == Some(rs[i])
    decreases |h| - v
  {
    if h[v].successor.Some? then
      var rest := DirtyRegions(h, h[v].successor.value);
      assert Chain(h, v) == [v] + Chain(h, h[v].successor.value);
      [h[v].dirtyRegion.value] + rest
    else []
  }

  /** The box each transformer of `edits` accumulates. */
  function Recorded(edits: seq<Edit>): (rs: seq<Region.Aabb>)
    requires forall i :: 0 <= i < |edits| ==> Records(edits[i])
    ensures |rs| == |edits|
    decreases |edits|
  {
    if |edits| == 0 then []
    else
      assert Records(edits[0]) && forall i :: 1 <= i < |edits| ==> edits[1..][i - 1] == edits[i];
      [Region.Accumulate(Marks(edits[0])).value] + Recorded(edits[1..])
  }

  /** After k recording mutations from an owning version `v`, the timeline from
      `v` holds k superseded versions whose dirty regions are, in order, the boxes
      the k transformers accumulated, followed by the owning head, which is the
      version returned. */
  lemma {:induction false} MutateAllHistory(h: Heap, v: Ref, edits: seq<Edit>)
    requires Valid(h) && v < |h| && Owning(h[v])
    requires forall i :: 0 <= i < |edits| ==> Records(edits[i])
    ensures MutateAll(h, v, edits).result.Ok?
    ensures Valid(MutateAll(h, v, edits).heap)
    ensures Head(MutateAll(h, v, edits).heap, v) == MutateAll(h, v, edits).result.value
    ensures DirtyRegions(MutateAll(h, v, edits).heap, v) == Recorded(edits)
    decreases |edits|
  {
    if |edits| > 0 {
      var o := Mutate(h, v, edits[0]);
      var s := |h|;
      assert o.result == Ok(s) && o.heap[v] == Node(None, Some(s), Region.Accumulate(Marks(edits[0])));
      var rest := edits[1..];
      assert forall i :: 0 <= i < |rest| ==> rest[i] == edits[i + 1];
      MutateAllHistory(o.heap, s, rest);
      var r := MutateAll(o.heap, s, rest);
      assert MutateAll(h, v, edits) == r;
      assert r.heap[v] == o.heap[v];
    }
  }

  /** The immutable properties of a work: its extents. */
  datatype WorkProps = WorkProps(extents: seq<int>)

  /** A work: the version a holder currently uses, and its properties. */
  datatype Work = Work(data: Ref, props: WorkProps)

  /** `WORK_PROPS_DEFAULT`. */
  const WORK_PROPS_DEFAULT: WorkProps := WorkProps([50, 40, 50])

  /** The heap after `createWork`, and the work it returns. */
  datatype Created = Created(heap: Heap, work: Work)

  /** `createWork()`: a new owning version over zero-filled data, with the
      default extents. */
  function CreateWork(h: Heap): (r: Created)
    ensures |r.heap| == |h| + 1 && r.heap[..|h|] == h
    ensures r.work.data == |h| && Owning(r.heap[|h|])
    ensures r.heap[|h|].data == Some(Grid.NewWorkData())
    ensures r.work.props.extents == [50, 40, 50]
    ensures Valid(h) ==> Valid(r.heap)
  {
    Created(Create(h, Grid.NewWorkData()), Work(|h|, WORK_PROPS_DEFAULT))
  }

  /** The end-to-end scenario: create a work, set density 255 at `(10, 10, 10)`
      and mark `[10,10,10]-[11,11,11]` dirty. The predecessor records exactly
      that box and refuses `expectData`; the new head reads 255 back. */
  lemma EditScenario()
    ensures
      var c := CreateWork([]);
      var edit := [WriteDensity(10, 10, 10, 255), MarkDirty(Region.Vec3(10, 10, 10), Region.Vec3(11, 11, 11))];
      var o := Mutate(c.heap, c.work.data, edit);
      && o.result == Ok(1)
      && o.heap[0].dirtyRegion == Some(Region.Aabb(Region.Vec3(10, 10, 10), Region.Vec3(11, 11, 11)))
      && ExpectData(o.heap, 0) == Err(StaleVersion)
      && ExpectData(o.heap, 1).Ok?
      && ExpectData(o.heap, 1).value.density[Grid.MapIndex(10, 10, 10)] == 255
  {
  }
}
