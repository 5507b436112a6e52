/** The planner's mutable query graph and the operations that append a node to it. */
module PlannerGraph {
  import opened SqlValues
  import opened Operators
  import opened ExpressionGraph

  class QueryGraph {
    var int64Constants: seq<int>
    var float64Constants: seq<real>
    var stringConstants: seq<seq<Byte>>
    var names: seq<string>
    var operations: seq<Operation>
    var graphMapping: seq<seq<nat>>

    constructor ()
      ensures View() == Graph([], []) && ConstantPools() == Pools([], [], []) && names == []
    {
      int64Constants, float64Constants, stringConstants := [], [], [];
      names, operations, graphMapping := [], [], [];
    }

    function View(): Graph
      reads this
    {
      Graph(operations, graphMapping)
    }

    function ConstantPools(): Pools
      reads this
    {
      Pools(int64Constants, float64Constants, stringConstants)
    }

    method AppendName(name: string) returns (nameId: nat)
      modifies this`names
      ensures nameId == |old(names)| && names == old(names) + [name]
    {
      nameId := |names|;
      names := names + [name];
    }

    method AppendInt64Constant(value: int) returns (nodeId: nat)
      modifies this`int64Constants, this`operations, this`graphMapping
      ensures nodeId == |old(operations)|
      ensures View() == Append(old(View()), Constant(|old(int64Constants)|, Int64), [])
      ensures int64Constants == old(int64Constants) + [value]
    {
      var constId := |int64Constants|;
      int64Constants := int64Constants + [value];
      nodeId := |operations|;
      graphMapping := graphMapping + [[]];
      operations := operations + [Constant(constId, Int64)];
    }

    method AppendFloat64Constant(value: real) returns (nodeId: nat)
      modifies this`float64Constants, this`operations, this`graphMapping
      ensures nodeId == |old(operations)|
      ensures View() == Append(old(View()), Constant(|old(float64Constants)|, Float64), [])
      ensures float64Constants == old(float64Constants) + [value]
    {
      var constId := |float64Constants|;
      float64Constants := float64Constants + [value];
      nodeId := |operations|;
      graphMapping := graphMapping + [[]];
      operations := operations + [Constant(constId, Float64)];
    }

    method AppendStringConstant(value: seq<Byte>) returns (nodeId: nat)
      modifies this`stringConstants, this`operations, this`graphMapping
      ensures nodeId == |old(operations)|
      ensures View() == Append(old(View()), Constant(|old(stringConstants)|, String), [])
      ensures stringConstants == old(stringConstants) + [value]
    {
      var constId := |stringConstants|;
      stringConstants := stringConstants + [value];
      nodeId := |operations|;
      graphMapping := graphMapping + [[]];
      operations := operations + [Constant(constId, String)];
    }

    method AppendColumn(name: string, typ: ValueType) returns (nodeId: nat)
      modifies this`names, this`operations, this`graphMapping
      ensures nodeId == |old(operations)| && names == old(names) + [name]
      ensures View() == Append(old(View()), Operation(Column, |old(names)|, NODE_NONE, NODE_NONE, typ, Array), [])
    {
      var nameId := AppendName(name);
      nodeId := |operations|;
      graphMapping := graphMapping + [[]];
      operations := operations + [Operation(Column, nameId, NODE_NONE, NODE_NONE, typ, Array)];
    }

    method AppendNode(df: int, op: ColumnOp, typ: ValueType, args: seq<nat>) returns (nodeId: nat)
      modifies this`operations, this`graphMapping
      ensures nodeId == |old(operations)|
      ensures View() == Append(old(View()), Plain(df, op, typ), args)
    {
      nodeId := |operations|;
      graphMapping := graphMapping + [args];
      operations := operations + [Plain(df, op, typ)];
    }
  }

  /** The record of a scalar constant; its data frame id 0 marks it as a constant. */
  function Constant(constId: nat, typ: ValueType): Operation {
    Operation(Const, NODE_NONE, constId, 0, typ, Single)
  }

  /** The record `AppendNode` stores: always a single value, whatever sequence kind was asked for. */
  function Plain(df: int, op: ColumnOp, typ: ValueType): Operation {
    Operation(op, NODE_NONE, NODE_NONE, df, typ, Single)
  }

  function Append(g: Graph, o: Operation, row: seq<nat>): Graph {
    Graph(g.ops + [o], g.rows + [row])
  }

  /**
   Appending a node whose children are already there keeps parents after children, and names the
   expression it applies to them.
   */
  lemma AppendRepresents(g: Graph, o: Operation, row: seq<nat>, es: seq<Expr>)
    requires Topological(g) && RepresentsAll(g, row, es)
    ensures var h := Append(g, o, row);
            Topological(h) && Extends(g, h) && Represents(h, |g.ops|, Node(o, es))
  {
    var h := Append(g, o, row);
    RepresentsAllExtends(g, h, row, es);
    forall n | 0 <= n < |h.rows|
      ensures RowInRange(h.rows[n], n)
    {
      if n < |g.rows| {
        assert RowInRange(g.rows[n], n);
      }
    }
  }
}
