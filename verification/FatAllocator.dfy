/** Runs of create_chain and remove_chain on a mounted volume, through its window. */
module FatAllocator {
  import opened FatTable
  import opened FatVolume

  /** The calls one after the other, up to the first that reports a failure. As long as the device works they are a run
      of the allocator, so that the table on the volume stays the set of chains the calls describe and a known free
      count stays right; and whatever happens, only the FATs change. */
  method Perform(v: Volume, ops: seq<Op>, ghost chains: set<seq<nat>>)
    returns (results: seq<nat>, ghost states: seq<State>)
    requires v.Shape() && v.Coherent()
    modifies v, v.win, v.disk
    ensures v.Shape() && DataKept(v.geo, old(v.Image()), v.Image()) && (v.disk.keeps ==> v.Coherent())
    ensures |results| <= |ops| && (|results| < |ops| ==> results != [] && results[|results| - 1] == 1)
    ensures v.disk.faults == old(v.disk.faults) ==>
              Run(states, ops[..|results|], results, v.geo.EndMark()) &&
              states[0] == old(v.Allocator()) && states[|results|] == v.Allocator()
    ensures v.disk.faults == old(v.disk.faults) && Forest(old(v.Tab()), chains) && CountRight(old(v.Allocator())) &&
            AllLegal(states, ops[..|results|], results, chains) ==>
              Forest(v.Tab(), ChainsAfter(states, ops[..|results|], results, chains)) && CountRight(v.Allocator())
  {
    hide Step, DataKept, Forest, CountRight, AllLegal, ChainsAfter;
    hide Volume.Coherent, Volume.Tab, Volume.Image, Geometry.Valid, Geometry.EndMark;
    results, states := [], [v.Allocator()];
    NothingChanged(v.geo, v.Image());
    TableSize(v);
    ghost var start := v.Allocator();
    var failed := false;
    while |results| < |ops| && !failed
      invariant v.Shape() && DataKept(v.geo, old(v.Image()), v.Image()) && v.disk.faults >= old(v.disk.faults)
      invariant |results| <= |ops| && |states| == |results| + 1
      invariant v.disk.keeps ==> v.Coherent()
      invariant if failed then results != [] && results[|results| - 1] == 1 else v.Coherent()
      invariant v.disk.faults == old(v.disk.faults) ==>
                  Run(states, ops[..|results|], results, v.geo.EndMark()) &&
                  states[0] == old(v.Allocator()) && states[|results|] == v.Allocator()
      decreases |ops| - |results|
    {
      ghost var image, was := v.Image(), states;
      var r := Call(v, ops[|results|]);
      DataKeptTwice(v.geo, old(v.Image()), image, v.Image());
      assert ops[..|results| + 1] == ops[..|results|] + [ops[|results|]];
      results, states := results + [r], states + [v.Allocator()];
      failed := r == 1;
    }
    if v.disk.faults == old(v.disk.faults) && Forest(states[0].t, chains) && CountRight(states[0])
       && AllLegal(states, ops[..|results|], results, chains) {
      RunKeepsForest(states, ops[..|results|], results, chains, v.geo.EndMark());
    }
  }

  lemma TableSize(v: Volume)
    requires v.Shape()
    ensures 2 <= |v.Allocator().t| <= 0xFFF7 && v.geo.EndMark() >= |v.Allocator().t|
  {
    v.geo.Marks(|v.disk.sects|);
  }

  /** One call. */
  method Call(v: Volume, op: Op) returns (r: nat)
    requires v.Shape() && v.Coherent()
    modifies v, v.win, v.disk
    ensures v.Shape() && DataKept(v.geo, old(v.Image()), v.Image()) && v.disk.faults >= old(v.disk.faults)
    ensures v.disk.keeps ==> v.Coherent()
    ensures r != 1 || v.disk.faults == old(v.disk.faults) ==>
              v.Coherent() && Step(old(v.Allocator()), op, v.geo.EndMark(), r, v.Allocator())
  {
    hide Created, DataKept, Volume.Coherent, Geometry.Valid, Geometry.TableOf;
    NothingChanged(v.geo, v.Image());
    match op
    case Create(clust) =>
      r := v.CreateChain(clust);
    case RemoveFrom(clust) =>
      var ok := v.RemoveChain(clust);
      r := if ok then 0 else 1;
    case Hint(last) =>
      v.lastClust := last;
      r := 0;
  }
}
