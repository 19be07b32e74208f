/**
 * `DBGraphs` (db.py): an ordered collection of `DBGraph`s.  The list is a field the
 * methods extend in place; it holds references, so the graphs themselves are shared with
 * whoever else holds them.
 */
module Database {
  import opened Wrappers
  import opened DbGraph

  class DBGraphs {
    var graphs: seq<DBGraph>

    /**
     * `DBGraphs(graphs=None)`: empty without an argument, otherwise the given graphs in
     * order.  The list is a new one (`list(graphs)`); as a Dafny `seq` is a value, later
     * additions cannot reach the caller's list.
     */
    constructor(init: Option<seq<DBGraph>>)
      ensures init.None? ==> graphs == []
      ensures init.Some? ==> graphs == init.value
    {
      graphs := if init.Some? then init.value else [];
    }

    /** `add_graph(graph)`: appends at the end; the earlier entries stay as they were. */
    method AddGraph(g: DBGraph)
      modifies this
      ensures graphs == old(graphs) + [g]
      ensures |graphs| == |old(graphs)| + 1 && graphs[|graphs| - 1] == g
      ensures forall i :: 0 <= i < |old(graphs)| ==> graphs[i] == old(graphs)[i]
    {
      graphs := graphs + [g];
    }

    /** `get_graphs()`: the graphs in insertion order. */
    method GetGraphs() returns (r: seq<DBGraph>)
      ensures r == graphs
    {
      r := graphs;
    }
  }
}
