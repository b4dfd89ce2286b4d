/** The encode jobs of one combined render, in any interleaving (the job body of
    `doRender` with `createDelta`'s use of the cache), and the cutting of their
    shared output into responses.

    Cache entries are heap cells: a job may hold a cell that has been evicted
    from the cache meanwhile.
 */
module RenderJobs {
  import opened Options
  import opened Pixels
  import opened DeltaCache

  /** One job per tile: where it goes, the entry made of its pixels, the delta of
      that against a cached version, if it makes one, and the keyframe packed from
      the rows of an entry. */
  datatype Jobs<!E> = Jobs(
    locs: seq<TileLocation>,
    entries: seq<E>,
    delta: (nat, E) -> Option<seq<byte>>,
    pack: E -> seq<byte>)

  datatype Cell<E> = Cell(entry: E, inUse: bool)

  datatype Pc =
    | Start
    | Holding(cell: nat)                           // between use() and makeDelta
    | Made(cell: nat, delta: Option<seq<byte>>)    // before replaceAndFree and unuse()
    | Packing(cell: nat)                           // about to read the rows, unguarded
    | Ready(data: seq<byte>)
    | Done(data: seq<byte>)

  /** `sizes` are the recorded image sizes; `order`, `inUseFired` and `evicted` are
      a log. */
  datatype State<E> = State(
    cache: map<TileLocation, nat>,
    heap: map<nat, Cell<E>>,
    pcs: seq<Pc>,
    output: seq<byte>,
    sizes: seq<nat>,
    order: seq<nat>,
    inUseFired: bool,
    evicted: set<TileLocation>)

  datatype Step =
    | Lookup(j: nat)
    | Make(j: nat)
    | Replace(j: nat)
    | Pack(j: nat)
    | Append(j: nat)
    | Evict(loc: TileLocation)

  ghost predicate WellFormed<E(!new)>(jobs: Jobs<E>) {
    && |jobs.locs| == |jobs.entries|
    && forall i, j :: 0 <= i < j < |jobs.locs| ==> jobs.locs[i] != jobs.locs[j]
  }

  ghost predicate Next<E(!new)>(jobs: Jobs<E>, s: State<E>, s': State<E>, a: Step)
    requires |jobs.locs| == |jobs.entries| == |s.pcs|
  {
    match a
    case Lookup(j) =>
      && j < |s.pcs| && s.pcs[j].Start?
      && var loc := jobs.locs[j];
         if loc in s.cache then
           var c := s.cache[loc];
           && c in s.heap
           && s' == s.(heap := s.heap[c := s.heap[c].(inUse := true)],
                       inUseFired := s.inUseFired || s.heap[c].inUse,
                       pcs := s.pcs[j := Holding(c)])
         else
           exists c: nat :: Inserted(jobs, s, s', j, c)
    case Make(j) =>
      && j < |s.pcs| && s.pcs[j].Holding? && s.pcs[j].cell in s.heap
      && s' == s.(pcs := s.pcs[j := Made(s.pcs[j].cell, jobs.delta(j, s.heap[s.pcs[j].cell].entry))])
    case Replace(j) =>
      && j < |s.pcs| && s.pcs[j].Made?
      && s' == s.(heap := s.heap[s.pcs[j].cell := Cell(jobs.entries[j], false)],
                  pcs := s.pcs[j := if s.pcs[j].delta.Some? then Ready(s.pcs[j].delta.value) else Packing(s.pcs[j].cell)])
    case Pack(j) =>
      && j < |s.pcs| && s.pcs[j].Packing? && s.pcs[j].cell in s.heap
      && s' == s.(pcs := s.pcs[j := Ready(jobs.pack(s.heap[s.pcs[j].cell].entry))])
    case Append(j) =>
      && j < |s.pcs| && s.pcs[j].Ready?
      && s' == s.(output := s.output + s.pcs[j].data, sizes := s.sizes + [|s.pcs[j].data|], order := s.order + [j],
                  pcs := s.pcs[j := Done(s.pcs[j].data)])
    case Evict(loc) =>
      s' == s.(cache := s.cache - {loc}, evicted := s.evicted + {loc})
  }

  /** At first no job has started, nothing is in use, and each location has its
      own cell. */
  ghost predicate Initial<E(!new)>(jobs: Jobs<E>, s: State<E>) {
    && |s.pcs| == |jobs.locs| && (forall j :: 0 <= j < |s.pcs| ==> s.pcs[j] == Start)
    && s.output == [] && s.sizes == [] && s.order == [] && !s.inUseFired && s.evicted == {}
    && (forall l :: l in s.cache ==> s.cache[l] in s.heap && !s.heap[s.cache[l]].inUse)
    && (forall l, m :: l in s.cache && m in s.cache && l != m ==> s.cache[l] != s.cache[m])
  }

  /** The version a job would find in the cache at the start. */
  ghost function Found<E>(s0: State<E>, loc: TileLocation): Option<E> {
    if loc in s0.cache && s0.cache[loc] in s0.heap then Some(s0.heap[s0.cache[loc]].entry) else None
  }

  /** What a job sends, executed alone with this version cached for its tile. */
  ghost function Encoding<E>(jobs: Jobs<E>, j: nat, found: Option<E>): seq<byte>
    requires j < |jobs.entries|
  {
    if found.Some? && jobs.delta(j, found.value).Some? then jobs.delta(j, found.value).value
    else jobs.pack(jobs.entries[j])
  }

  predicate HasCell(pc: Pc) {
    pc.Holding? || pc.Made? || pc.Packing?
  }

  predicate InUse(pc: Pc) {
    pc.Holding? || pc.Made?
  }

  predicate HasData(pc: Pc) {
    pc.Ready? || pc.Done?
  }

  // ----- The invariant -----

  /** A job's bytes are those of sequential execution, unless its entry was
      evicted before it looked: then they are those of an empty cache. */
  ghost predicate RightData<E(!new)>(jobs: Jobs<E>, s0: State<E>, s: State<E>, j: nat)
    requires j < |s.pcs| && j < |jobs.locs| == |jobs.entries| && HasData(s.pcs[j])
  {
    || s.pcs[j].data == Encoding(jobs, j, Found(s0, jobs.locs[j]))
    || (jobs.locs[j] in s.evicted && s.pcs[j].data == Encoding(jobs, j, None))
  }

  ghost predicate CacheOk<E(!new)>(jobs: Jobs<E>, s0: State<E>, s: State<E>) {
    && (forall l :: l in s.cache ==> s.cache[l] in s.heap)
    && (forall l, m :: l in s.cache && m in s.cache && l != m ==> s.cache[l] != s.cache[m])
    && (forall l :: l in s.cache && s.heap[s.cache[l]].inUse ==> Holder(jobs, s, l))
  }

  /** Some job for this location has its cell in use. */
  ghost predicate Holder<E(!new)>(jobs: Jobs<E>, s: State<E>, l: TileLocation) {
    exists j :: 0 <= j < |s.pcs| && j < |jobs.locs| && InUse(s.pcs[j]) && jobs.locs[j] == l
  }

  ghost predicate JobOk<E(!new)>(jobs: Jobs<E>, s0: State<E>, s: State<E>, j: nat)
    requires j < |s.pcs| == |jobs.locs| == |jobs.entries|
  {
    var l := jobs.locs[j];
    && (s.pcs[j].Start? ==>
        if l in s.cache then
          s.cache[l] in s.heap && Found(s0, l) == Some(s.heap[s.cache[l]].entry)
        else
          l in s.evicted || Found(s0, l) == None)
    && (HasCell(s.pcs[j]) ==>
        && s.pcs[j].cell in s.heap
        && (l in s.cache ==> s.cache[l] == s.pcs[j].cell)
        && (forall m :: m in s.cache && s.cache[m] == s.pcs[j].cell ==> m == l))
    && (s.pcs[j].Holding? ==> Found(s0, l) == Some(s.heap[s.pcs[j].cell].entry))
    && (s.pcs[j].Made? ==> Found(s0, l).Some? && s.pcs[j].delta == jobs.delta(j, Found(s0, l).value))
    && (s.pcs[j].Packing? ==>
        && s.heap[s.pcs[j].cell].entry == jobs.entries[j]
        && (l in s.evicted || Encoding(jobs, j, Found(s0, l)) == jobs.pack(jobs.entries[j])))
    && (HasData(s.pcs[j]) ==> RightData(jobs, s0, s, j))
  }

  /** A job past its replacement or insertion has left its own version in the cache,
      if its entry is still there. */
  predicate HasLeft(pc: Pc) {
    pc.Packing? || pc.Ready? || pc.Done?
  }

  ghost predicate LeftOwn<E(!new)>(jobs: Jobs<E>, s: State<E>) {
    forall j :: 0 <= j < |s.pcs| && j < |jobs.locs| == |jobs.entries| && HasLeft(s.pcs[j]) && jobs.locs[j] in s.cache ==>
      s.cache[jobs.locs[j]] in s.heap && s.heap[s.cache[jobs.locs[j]]].entry == jobs.entries[j]
  }

  /** Jobs hold different cells. */
  ghost predicate Apart<E(!new)>(s: State<E>) {
    forall i, j :: 0 <= i < j < |s.pcs| && HasCell(s.pcs[i]) && HasCell(s.pcs[j]) ==>
      s.pcs[i].cell != s.pcs[j].cell
  }

  ghost predicate Inv<E(!new)>(jobs: Jobs<E>, s0: State<E>, s: State<E>) {
    && |s.pcs| == |jobs.locs| == |jobs.entries|
    && !s.inUseFired
    && CacheOk(jobs, s0, s)
    && Apart(s)
    && forall j :: 0 <= j < |s.pcs| ==> JobOk(jobs, s0, s, j)
  }

  lemma InitialInv<E(!new)>(jobs: Jobs<E>, s: State<E>)
    requires WellFormed(jobs) && Initial(jobs, s)
    ensures Inv(jobs, s, s)
  {
  }

  lemma HoldersStay<E(!new)>(jobs: Jobs<E>, s: State<E>, s': State<E>, j: nat)
    requires |s.pcs| == |s'.pcs| == |jobs.locs| && j < |s.pcs|
    requires forall i :: 0 <= i < |s.pcs| && i != j ==> s'.pcs[i] == s.pcs[i]
    ensures forall l :: Holder(jobs, s, l) && l != jobs.locs[j] ==> Holder(jobs, s', l)
  {
    forall l | Holder(jobs, s, l) && l != jobs.locs[j]
      ensures Holder(jobs, s', l)
    {
      var i :| 0 <= i < |s.pcs| && InUse(s.pcs[i]) && jobs.locs[i] == l;
      assert s'.pcs[i] == s.pcs[i];
    }
  }

  lemma LookupHitInv<E(!new)>(jobs: Jobs<E>, s0: State<E>, s: State<E>, s': State<E>, j: nat)
    requires WellFormed(jobs) && Inv(jobs, s0, s) && Next(jobs, s, s', Lookup(j)) && jobs.locs[j] in s.cache
    ensures Inv(jobs, s0, s')
  {
    var loc := jobs.locs[j];
    var c := s.cache[loc];
    assert JobOk(jobs, s0, s, j);
    assert !s.heap[c].inUse;
    HoldersStay(jobs, s, s', j);
    assert s'.pcs[j] == Holding(c);
    assert Holder(jobs, s', loc);
    forall i | 0 <= i < |s'.pcs|
      ensures JobOk(jobs, s0, s', i)
      ensures i != j && HasCell(s.pcs[i]) ==> s.pcs[i].cell != c
    {
      assert JobOk(jobs, s0, s, i);
    }
  }

  ghost predicate Inserted<E(!new)>(jobs: Jobs<E>, s: State<E>, s': State<E>, j: nat, c: nat)
    requires j < |s.pcs| == |jobs.locs| == |jobs.entries|
  {
    && jobs.locs[j] !in s.cache && c !in s.heap
    && s' == s.(cache := s.cache[jobs.locs[j] := c], heap := s.heap[c := Cell(jobs.entries[j], false)],
                pcs := s.pcs[j := Packing(c)])
  }

  lemma MissJob<E(!new)>(jobs: Jobs<E>, s0: State<E>, s: State<E>, s': State<E>, j: nat, c: nat, i: nat)
    requires WellFormed(jobs) && i < |s.pcs| == |jobs.locs| && j < |s.pcs| && s.pcs[j].Start?
    requires Inserted(jobs, s, s', j, c)
    requires CacheOk(jobs, s0, s) && JobOk(jobs, s0, s, j) && JobOk(jobs, s0, s, i)
    ensures JobOk(jobs, s0, s', i)
  {
  }

  lemma MissCache<E(!new)>(jobs: Jobs<E>, s0: State<E>, s: State<E>, s': State<E>, j: nat, c: nat)
    requires WellFormed(jobs) && j < |s.pcs| == |jobs.locs| && s.pcs[j].Start?
    requires Inserted(jobs, s, s', j, c) && CacheOk(jobs, s0, s) && Apart(s)
    requires forall i :: 0 <= i < |s.pcs| && HasCell(s.pcs[i]) ==> s.pcs[i].cell in s.heap
    ensures CacheOk(jobs, s0, s') && Apart(s')
  {
    HoldersStay(jobs, s, s', j);
  }

  lemma LookupMissInv<E(!new)>(jobs: Jobs<E>, s0: State<E>, s: State<E>, s': State<E>, j: nat)
    requires WellFormed(jobs) && Inv(jobs, s0, s) && Next(jobs, s, s', Lookup(j)) && jobs.locs[j] !in s.cache
    ensures Inv(jobs, s0, s')
  {
    forall i | 0 <= i < |s.pcs| && HasCell(s.pcs[i])
      ensures s.pcs[i].cell in s.heap
    {
      assert JobOk(jobs, s0, s, i);
    }
    hide JobOk, CacheOk, Apart;
    var c :| Inserted(jobs, s, s', j, c);
    MissCache(jobs, s0, s, s', j, c);
    forall i | 0 <= i < |s'.pcs|
      ensures JobOk(jobs, s0, s', i)
    {
      MissJob(jobs, s0, s, s', j, c, i);
    }
  }

  /** A job that holds no cell is not the holder of its location. */
  lemma NotHolder<E(!new)>(jobs: Jobs<E>, s: State<E>, j: nat)
    requires WellFormed(jobs) && |s.pcs| == |jobs.locs| && j < |s.pcs| && !InUse(s.pcs[j])
    ensures !Holder(jobs, s, jobs.locs[j])
  {
  }

  lemma MakeInv<E(!new)>(jobs: Jobs<E>, s0: State<E>, s: State<E>, s': State<E>, j: nat)
    requires WellFormed(jobs) && Inv(jobs, s0, s) && Next(jobs, s, s', Make(j))
    ensures Inv(jobs, s0, s')
  {
    HoldersStay(jobs, s, s', j);
    assert HasCell(s'.pcs[j]);
    forall i | 0 <= i < |s'.pcs|
      ensures JobOk(jobs, s0, s', i)
    {
      assert JobOk(jobs, s0, s, i);
    }
  }

  lemma ReplaceInv<E(!new)>(jobs: Jobs<E>, s0: State<E>, s: State<E>, s': State<E>, j: nat)
    requires WellFormed(jobs) && Inv(jobs, s0, s) && Next(jobs, s, s', Replace(j))
    ensures Inv(jobs, s0, s')
  {
    assert JobOk(jobs, s0, s, j);
    HoldersStay(jobs, s, s', j);
    forall i | 0 <= i < |s'.pcs|
      ensures JobOk(jobs, s0, s', i)
    {
      assert JobOk(jobs, s0, s, i);
    }
  }

  lemma PackInv<E(!new)>(jobs: Jobs<E>, s0: State<E>, s: State<E>, s': State<E>, j: nat)
    requires WellFormed(jobs) && Inv(jobs, s0, s) && Next(jobs, s, s', Pack(j))
    ensures Inv(jobs, s0, s')
  {
    HoldersStay(jobs, s, s', j);
    assert JobOk(jobs, s0, s, j);
    NotHolder(jobs, s, j);
    forall i | 0 <= i < |s'.pcs|
      ensures JobOk(jobs, s0, s', i)
    {
      assert JobOk(jobs, s0, s, i);
    }
  }

  lemma AppendInv<E(!new)>(jobs: Jobs<E>, s0: State<E>, s: State<E>, s': State<E>, j: nat)
    requires WellFormed(jobs) && Inv(jobs, s0, s) && Next(jobs, s, s', Append(j))
    ensures Inv(jobs, s0, s')
  {
    HoldersStay(jobs, s, s', j);
    assert JobOk(jobs, s0, s, j);
    NotHolder(jobs, s, j);
    forall i | 0 <= i < |s'.pcs|
      ensures JobOk(jobs, s0, s', i)
    {
      assert JobOk(jobs, s0, s, i);
    }
  }

  lemma EvictInv<E(!new)>(jobs: Jobs<E>, s0: State<E>, s: State<E>, s': State<E>, loc: TileLocation)
    requires WellFormed(jobs) && Inv(jobs, s0, s) && Next(jobs, s, s', Evict(loc))
    ensures Inv(jobs, s0, s')
  {
    forall l | l in s.cache && Holder(jobs, s, l)
      ensures Holder(jobs, s', l)
    {
    }
    forall i | 0 <= i < |s'.pcs|
      ensures JobOk(jobs, s0, s', i)
    {
      assert JobOk(jobs, s0, s, i);
    }
  }

  /** No step of another job or eviction touches a version that has been left. */
  lemma StepLeftOwn<E(!new)>(jobs: Jobs<E>, s0: State<E>, s: State<E>, s': State<E>, a: Step)
    requires WellFormed(jobs) && Inv(jobs, s0, s) && LeftOwn(jobs, s) && Next(jobs, s, s', a)
    ensures LeftOwn(jobs, s')
  {
    forall j | 0 <= j < |s'.pcs| && HasLeft(s'.pcs[j]) && jobs.locs[j] in s'.cache
      ensures s'.cache[jobs.locs[j]] in s'.heap && s'.heap[s'.cache[jobs.locs[j]]].entry == jobs.entries[j]
    {
      assert JobOk(jobs, s0, s, j);
      if !a.Evict? {
        assert JobOk(jobs, s0, s, a.j);
      }
    }
  }

  // ----- The shared output -----

  function Data(pcs: seq<Pc>, j: nat): seq<byte> {
    if j < |pcs| && HasData(pcs[j]) then pcs[j].data else []
  }

  function Joined(pcs: seq<Pc>, order: seq<nat>): seq<byte> {
    if order == [] then [] else Joined(pcs, order[..|order| - 1]) + Data(pcs, order[|order| - 1])
  }

  lemma {:induction false} JoinedSame(pcs: seq<Pc>, pcs': seq<Pc>, order: seq<nat>)
    requires forall j :: j in order ==> Data(pcs, j) == Data(pcs', j)
    ensures Joined(pcs, order) == Joined(pcs', order)
  {
    if order != [] {
      JoinedSame(pcs, pcs', order[..|order| - 1]);
    }
  }

  /** The output is the data of the finished jobs, each once, in the order in
      which they got the lock. */
  ghost predicate OutputOk<E(!new)>(s: State<E>) {
    && s.output == Joined(s.pcs, s.order)
    && |s.sizes| == |s.order| && (forall k :: 0 <= k < |s.order| ==> s.sizes[k] == |Data(s.pcs, s.order[k])|)
    && (forall j :: j in s.order <==> 0 <= j < |s.pcs| && s.pcs[j].Done?)
    && forall a, b :: 0 <= a < b < |s.order| ==> s.order[a] != s.order[b]
  }

  lemma StepOutput<E(!new)>(jobs: Jobs<E>, s: State<E>, s': State<E>, a: Step)
    requires |jobs.locs| == |jobs.entries| == |s.pcs| && OutputOk(s) && Next(jobs, s, s', a)
    ensures OutputOk(s') && |s'.pcs| == |s.pcs|
  {
    hide Joined;
    if !a.Evict? {
      assert forall i :: 0 <= i < |s.pcs| && i != a.j ==> s'.pcs[i] == s.pcs[i];
    }
    JoinedSame(s.pcs, s'.pcs, s.order);
    if a.Append? {
      JoinedSnoc(s'.pcs, s.order, a.j);
    }
  }

  lemma JoinedSnoc(pcs: seq<Pc>, order: seq<nat>, j: nat)
    ensures Joined(pcs, order + [j]) == Joined(pcs, order) + Data(pcs, j)
  {
    assert (order + [j])[..|order|] == order;
  }

  // ----- Runs -----

  ghost predicate IsRun<E(!new)>(jobs: Jobs<E>, run: seq<State<E>>, steps: seq<Step>) {
    && WellFormed(jobs) && |run| == |steps| + 1 && Initial(jobs, run[0])
    && forall i :: 0 <= i < |steps| ==>
         |run[i].pcs| == |jobs.locs| && Next(jobs, run[i], run[i + 1], steps[i])
  }

  lemma StepInv<E(!new)>(jobs: Jobs<E>, s0: State<E>, s: State<E>, s': State<E>, a: Step)
    requires WellFormed(jobs) && Inv(jobs, s0, s) && Next(jobs, s, s', a)
    ensures Inv(jobs, s0, s')
  {
    assert |s.pcs| == |jobs.locs|;
    hide Inv;
    match a
    case Lookup(j) =>
      if jobs.locs[j] in s.cache {
        LookupHitInv(jobs, s0, s, s', j);
      } else {
        LookupMissInv(jobs, s0, s, s', j);
      }
    case Make(j) => MakeInv(jobs, s0, s, s', j);
    case Replace(j) => ReplaceInv(jobs, s0, s, s', j);
    case Pack(j) => PackInv(jobs, s0, s, s', j);
    case Append(j) => AppendInv(jobs, s0, s, s', j);
    case Evict(loc) => EvictInv(jobs, s0, s, s', loc);
  }

  lemma {:induction false} RunInv<E(!new)>(jobs: Jobs<E>, run: seq<State<E>>, steps: seq<Step>, i: nat)
    requires IsRun(jobs, run, steps) && i <= |steps|
    ensures Inv(jobs, run[0], run[i]) && OutputOk(run[i]) && LeftOwn(jobs, run[i])
    ensures (forall k :: 0 <= k < i ==> !steps[k].Evict?) ==> run[i].evicted == {}
  {
    if i == 0 {
      InitialInv(jobs, run[0]);
    } else {
      RunInv(jobs, run, steps, i - 1);
      assert Next(jobs, run[i - 1], run[i], steps[i - 1]);
      hide Inv, OutputOk, LeftOwn;
      StepLeftOwn(jobs, run[0], run[i - 1], run[i], steps[i - 1]);
      StepInv(jobs, run[0], run[i - 1], run[i], steps[i - 1]);
      StepOutput(jobs, run[i - 1], run[i], steps[i - 1]);
    }
  }

  /** In every interleaving the in-use check never fires. */
  lemma InUseNeverFires<E(!new)>(jobs: Jobs<E>, run: seq<State<E>>, steps: seq<Step>, i: nat)
    requires IsRun(jobs, run, steps) && i <= |steps|
    ensures !run[i].inUseFired
  {
    RunInv(jobs, run, steps, i);
  }

  /** While a job packs its keyframe it reads a cell that is not marked as in use and
      that may have left the cache; the rows in it are its own all the time. */
  lemma PackedRowsAreOwn<E(!new)>(jobs: Jobs<E>, run: seq<State<E>>, steps: seq<Step>, i: nat, j: nat)
    requires IsRun(jobs, run, steps) && i <= |steps| && j < |run[i].pcs| && run[i].pcs[j].Packing?
    ensures j < |jobs.entries| && run[i].pcs[j].cell in run[i].heap
    ensures run[i].heap[run[i].pcs[j].cell].entry == jobs.entries[j]
  {
    RunInv(jobs, run, steps, i);
    assert JobOk(jobs, run[0], run[i], j);
  }

  /** Whatever the interleaving, a job's bytes depend only on its own tile and on
      the version cached for it at the start, as in sequential execution; with
      evictions under way, a job whose entry went first codes from scratch. */
  lemma SameBytesAsSequential<E(!new)>(jobs: Jobs<E>, run: seq<State<E>>, steps: seq<Step>, i: nat, j: nat)
    requires IsRun(jobs, run, steps) && i <= |steps| && j < |run[i].pcs| && run[i].pcs[j].Done?
    ensures j < |jobs.locs|
    ensures run[i].pcs[j].data == Encoding(jobs, j, Found(run[0], jobs.locs[j]))
      || (jobs.locs[j] in run[i].evicted && run[i].pcs[j].data == Encoding(jobs, j, None))
    ensures (forall k :: 0 <= k < i ==> !steps[k].Evict?) ==>
      run[i].pcs[j].data == Encoding(jobs, j, Found(run[0], jobs.locs[j]))
  {
    RunInv(jobs, run, steps, i);
    assert JobOk(jobs, run[0], run[i], j);
  }

  // ----- Cutting the output into responses -----

  /** Offset of the k-th piece. */
  function Offset(sizes: seq<nat>, k: nat): nat
    requires k <= |sizes|
  {
    if k == 0 then 0 else Offset(sizes, k - 1) + sizes[k - 1]
  }

  lemma {:induction false} PieceOf(pcs: seq<Pc>, order: seq<nat>, sizes: seq<nat>, k: nat)
    requires |sizes| == |order| && k < |order|
    requires forall i :: 0 <= i < |order| ==> sizes[i] == |Data(pcs, order[i])|
    ensures Offset(sizes, |sizes|) == |Joined(pcs, order)|
    ensures Offset(sizes, k) + sizes[k] <= |Joined(pcs, order)|
    ensures Joined(pcs, order)[Offset(sizes, k)..Offset(sizes, k) + sizes[k]] == Data(pcs, order[k])
  {
    hide Data;
    var n := |order| - 1;
    if n == 0 {
      assert order[..0] == [];
    } else {
      PieceOf(pcs, order[..n], sizes[..n], if k < n then k else n - 1);
      OffsetPrefix(sizes, n, n);
      OffsetPrefix(sizes, n, k);
    }
  }

  lemma {:induction false} OffsetPrefix(sizes: seq<nat>, n: nat, k: nat)
    requires k <= n <= |sizes|
    ensures Offset(sizes[..n], k) == Offset(sizes, k)
  {
    if k > 0 {
      OffsetPrefix(sizes, n, k - 1);
    }
  }

  /** The bytes between the sums of the recorded sizes. */
  function Response(output: seq<byte>, sizes: seq<nat>, k: nat): seq<byte>
    requires k < |sizes|
  {
    var at := Offset(sizes, k);
    if at + sizes[k] <= |output| then output[at..at + sizes[k]] else []
  }

  /** The loop that sends one response per tile: cutting the output by the recorded
      image sizes gives each tile exactly its own bytes. */
  method CutResponses<E(!new)>(ghost s: State<E>, output: seq<byte>, imgSizes: seq<nat>) returns (responses: seq<seq<byte>>)
    requires OutputOk(s) && output == s.output && imgSizes == s.sizes
    ensures |responses| == |s.order|
    ensures forall k :: 0 <= k < |s.order| ==> responses[k] == Data(s.pcs, s.order[k])
  {
    hide Joined, Data;
    responses := [];
    var outputOffset := 0;
    for k := 0 to |imgSizes|
      invariant |responses| == k && outputOffset == Offset(imgSizes, k)
      invariant forall i :: 0 <= i < k ==> responses[i] == Data(s.pcs, s.order[i])
    {
      PieceOf(s.pcs, s.order, imgSizes, k);
      responses := responses + [output[outputOffset..outputOffset + imgSizes[k]]];
      outputOffset := outputOffset + imgSizes[k];
    }
  }

  /** Every job has answered. */
  ghost predicate Finished<E(!new)>(s: State<E>) {
    forall j :: 0 <= j < |s.pcs| ==> s.pcs[j].Done?
  }

  /** The k-th response is what the k-th finished job sends alone; with evictions
      meanwhile it may be what it sends with nothing cached. */
  ghost predicate OwnResponse<E(!new)>(jobs: Jobs<E>, s0: State<E>, s: State<E>, k: nat)
    requires k < |s.order| == |s.sizes| && s.order[k] < |jobs.locs| == |jobs.entries|
  {
    var j := s.order[k];
    || Response(s.output, s.sizes, k) == Encoding(jobs, j, Found(s0, jobs.locs[j]))
    || (jobs.locs[j] in s.evicted && Response(s.output, s.sizes, k) == Encoding(jobs, j, None))
  }

  /** So it is in every state of every run. */
  lemma ResponseIsOwn<E(!new)>(jobs: Jobs<E>, run: seq<State<E>>, steps: seq<Step>, i: nat, k: nat)
    requires IsRun(jobs, run, steps) && i <= |steps| && k < |run[i].order|
    ensures |run[i].sizes| == |run[i].order| && run[i].order[k] < |jobs.locs| == |jobs.entries|
    ensures OwnResponse(jobs, run[0], run[i], k)
    ensures (forall n :: 0 <= n < i ==> !steps[n].Evict?) ==>
      Response(run[i].output, run[i].sizes, k) == Encoding(jobs, run[i].order[k], Found(run[0], jobs.locs[run[i].order[k]]))
  {
    var s := run[i];
    RunInv(jobs, run, steps, i);
    OneResponse(s, k);
    hide Inv, OutputOk, IsRun, Response, Encoding;
    SameBytesAsSequential(jobs, run, steps, i, s.order[k]);
  }

  lemma OneResponse<E(!new)>(s: State<E>, k: nat)
    requires OutputOk(s) && k < |s.order|
    ensures var j := s.order[k];
      && j < |s.pcs| && s.pcs[j].Done? && Response(s.output, s.sizes, k) == s.pcs[j].data
  {
    hide Joined;
    assert s.order[k] in s.order;
    PieceOf(s.pcs, s.order, s.sizes, k);
  }

  /** In every finished run each tile has exactly one response, its own. */
  lemma ResponsesAreSequential<E(!new)>(jobs: Jobs<E>, run: seq<State<E>>, steps: seq<Step>, j: nat) returns (k: nat)
    requires IsRun(jobs, run, steps) && Finished(run[|steps|]) && j < |jobs.locs|
    ensures var s := run[|steps|];
      && |s.sizes| == |s.order| && k < |s.order| && s.order[k] == j && j < |jobs.entries|
      && (forall n :: 0 <= n < |s.order| && s.order[n] == j ==> n == k)
      && OwnResponse(jobs, run[0], s, k)
      && ((forall n :: 0 <= n < |steps| ==> !steps[n].Evict?) ==>
          Response(s.output, s.sizes, k) == Encoding(jobs, j, Found(run[0], jobs.locs[j])))
  {
    var s := run[|steps|];
    RunInv(jobs, run, steps, |steps|);
    assert j in s.order;
    k :| 0 <= k < |s.order| && s.order[k] == j;
    hide Inv, IsRun, Response, Encoding, OwnResponse;
    ResponseIsOwn(jobs, run, steps, |steps|, k);
  }

  // ----- From one render to the next -----

  /** In every finished run the cache holds, for each tile whose entry has not been
      evicted, the version that was just sent. */
  lemma LeavesWhatWasSent<E(!new)>(jobs: Jobs<E>, run: seq<State<E>>, steps: seq<Step>, j: nat)
    requires IsRun(jobs, run, steps) && Finished(run[|steps|]) && j < |jobs.locs|
    ensures j < |jobs.entries|
    ensures Found(run[|steps|], jobs.locs[j]) == Some(jobs.entries[j])
      || (Found(run[|steps|], jobs.locs[j]) == None && jobs.locs[j] in run[|steps|].evicted)
  {
    var n := |steps|;
    var s := run[n];
    RunInv(jobs, run, steps, n);
    assert s.pcs[j].Done?;
    if jobs.locs[j] !in s.cache {
      RunKeepsCached(jobs, run, steps, n, j);
    }
  }

  /** An entry that has been left goes only by eviction. */
  lemma {:induction false} RunKeepsCached<E(!new)>(jobs: Jobs<E>, run: seq<State<E>>, steps: seq<Step>, i: nat, j: nat)
    requires IsRun(jobs, run, steps) && i <= |steps| && j < |jobs.locs| && j < |run[i].pcs|
    requires !run[i].pcs[j].Start? && jobs.locs[j] !in run[i].cache
    ensures jobs.locs[j] in run[i].evicted
  {
    if i > 0 {
      assert Next(jobs, run[i - 1], run[i], steps[i - 1]);
      hide Next;
      StepKeepsCached(jobs, run[i - 1], run[i], steps[i - 1], j);
      if !run[i - 1].pcs[j].Start? && jobs.locs[j] !in run[i - 1].cache {
        RunKeepsCached(jobs, run, steps, i - 1, j);
      }
    }
  }

  lemma StepKeepsCached<E(!new)>(jobs: Jobs<E>, s: State<E>, s': State<E>, a: Step, j: nat)
    requires |jobs.locs| == |jobs.entries| == |s.pcs| && Next(jobs, s, s', a)
    requires j < |jobs.locs| && j < |s'.pcs| && !s'.pcs[j].Start? && jobs.locs[j] !in s'.cache
    ensures jobs.locs[j] in s'.evicted || (!s.pcs[j].Start? && jobs.locs[j] !in s.cache)
    ensures s.evicted <= s'.evicted
  {
    if a.Lookup? && jobs.locs[a.j] !in s.cache {
      var c :| Inserted(jobs, s, s', a.j, c);
    }
  }

  /** No job touches the entry of a tile that is not rendered. */
  lemma {:induction false} OthersUntouched<E(!new)>(jobs: Jobs<E>, run: seq<State<E>>, steps: seq<Step>, i: nat, l: TileLocation)
    requires IsRun(jobs, run, steps) && i <= |steps| && l !in jobs.locs
    ensures Found(run[i], l) == (if l in run[i].evicted then None else Found(run[0], l))
  {
    if i > 0 {
      OthersUntouched(jobs, run, steps, i - 1, l);
      RunInv(jobs, run, steps, i - 1);
      assert Next(jobs, run[i - 1], run[i], steps[i - 1]);
      hide OutputOk, LeftOwn, IsRun;
      StepLeavesOthers(jobs, run[0], run[i - 1], run[i], steps[i - 1], l);
    }
  }

  lemma StepLeavesOthers<E(!new)>(jobs: Jobs<E>, s0: State<E>, s: State<E>, s': State<E>, a: Step, l: TileLocation)
    requires WellFormed(jobs) && Inv(jobs, s0, s) && Next(jobs, s, s', a) && l !in jobs.locs
    ensures Found(s', l) == if a == Evict(l) then None else Found(s, l)
    ensures l in s'.evicted <==> l in s.evicted || a == Evict(l)
  {
    if !a.Evict? {
      assert JobOk(jobs, s0, s, a.j);
      assert jobs.locs[a.j] in jobs.locs;
      if a.Lookup? && jobs.locs[a.j] !in s.cache {
        var c :| Inserted(jobs, s, s', a.j, c);
      }
    }
  }

  /** So renders compose: jobs of a later render that start from what a finished one
      left find the versions just sent, unless they were evicted. */
  lemma RendersCompose<E(!new)>(jobs: Jobs<E>, run: seq<State<E>>, steps: seq<Step>,
                                next: Jobs<E>, run': seq<State<E>>, steps': seq<Step>, j: nat, i: nat)
    requires IsRun(jobs, run, steps) && Finished(run[|steps|]) && j < |jobs.locs|
    requires IsRun(next, run', steps') && run'[0].cache == run[|steps|].cache && run'[0].heap == run[|steps|].heap
    requires i < |next.locs| && next.locs[i] == jobs.locs[j] && Finished(run'[|steps'|])
    requires forall n :: 0 <= n < |steps| ==> !steps[n].Evict?
    requires forall n :: 0 <= n < |steps'| ==> !steps'[n].Evict?
    ensures i < |next.entries| && j < |jobs.entries| && i < |run'[|steps'|].pcs| && run'[|steps'|].pcs[i].Done?
    ensures run'[|steps'|].pcs[i].data == Encoding(next, i, Some(jobs.entries[j]))
  {
    LeavesWhatWasSent(jobs, run, steps, j);
    RunInv(jobs, run, steps, |steps|);
    RunInv(next, run', steps', |steps'|);
    SameBytesAsSequential(next, run', steps', |steps'|, i);
  }
}
