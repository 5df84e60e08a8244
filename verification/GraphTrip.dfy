/** The round trip from the heap: what `json_dumps` writes for a graph of nodes, `json_loads` reads back. */
module GraphTrip {
  import opened Graphs
  import opened Heaps
  import opened Parts
  import opened Printing
  import H = HeapEqual
  import J = Json
  import L = Loading

  /** Shared nodes are written once for each path to them, so that what comes back is the unfolding of the graph. */
  lemma DumpedGraphLoads(h: Heap, r: Ref, flags: Flags, reject: bool, disableEofCheck: bool)
    requires WritableFrom(h, r) && Live(h, r) && Container(h[r].node) && !CycleReachable(h, r)
    ensures Clear(h, r, {})
    ensures var d := Unfold(h, r, {});
            var loaded := L.Loads(GraphText(h, r, flags), reject, disableEofCheck);
            && loaded.Some? && J.Equal(d, loaded.value) && J.ValueOf(loaded.value) == J.ValueOf(d)
  {
    ClearIffAcyclic(h, r);
    var d := Unfold(h, r, {});
    UnfoldsToPrintable(h, r);
    H.UnfoldWellFormed(h, r, {});
    L.DocumentRoundTrip(d, flags, reject, disableEofCheck);
  }
}
