/** The three demo checks of microsoft2.py, evaluated on the model
    step by step: each assertion is one call of the inner `dfs` loop or
    of the neighbour loop of a neuron. */
module NeuronExamples {
  import opened NeuronStrengths

  function StarAdj(): Adj { [[], [2, 3, 4], [1], [1], [1]] }

  function StarStrong(): seq<int> { [0, 0, 1, 0] }

  lemma StarEdges()
    ensures Edges(4, [1, 1, 1], [2, 3, 4], 3) == StarAdj()
  {
    var f, t := [1, 1, 1], [2, 3, 4];
    assert Edges(4, f, t, 0) == [[], [], [], [], []];
    assert [] + [2] == [2];
    assert [] + [1] == [1];
    assert AddEdge([[], [], [], [], []], 1, 2) == [[], [2], [1], [], []];
    assert Edges(4, f, t, 1) == [[], [2], [1], [], []];
    assert [2] + [3] == [2, 3];
    assert [] + [1] == [1];
    assert AddEdge([[], [2], [1], [], []], 1, 3) == [[], [2, 3], [1], [1], []];
    assert Edges(4, f, t, 2) == [[], [2, 3], [1], [1], []];
    assert [2, 3] + [4] == [2, 3, 4];
    assert [] + [1] == [1];
    assert AddEdge([[], [2, 3], [1], [1], []], 1, 4) == [[], [2, 3, 4], [1], [1], [1]];
    assert Edges(4, f, t, 3) == [[], [2, 3, 4], [1], [1], [1]];
  }

  lemma StarIsValid()
    ensures Valid(StarAdj(), StarStrong())
  {
    StarEdges();
    EdgesValid(4, [1, 1, 1], [2, 3, 4], 3, StarStrong());
  }

  lemma StarNode1()
    ensures Valid(StarAdj(), StarStrong())
    ensures Strength(StarAdj(), StarStrong(), 1) == 0
  {
    StarIsValid();
    assert {1} + {2} == {1, 2};
    assert Walk(StarAdj(), StarStrong(), 2, 1, -1, {1, 2}) == (-1, {1, 2});
    assert Walk(StarAdj(), StarStrong(), 2, 0, -1, {1, 2}) == (-1, {1, 2});
    assert {1, 2} + {3} == {1, 2, 3};
    assert Walk(StarAdj(), StarStrong(), 3, 1, 1, {1, 2, 3}) == (1, {1, 2, 3});
    assert Walk(StarAdj(), StarStrong(), 3, 0, 1, {1, 2, 3}) == (1, {1, 2, 3});
    assert {1, 2, 3} + {4} == {1, 2, 3, 4};
    assert Walk(StarAdj(), StarStrong(), 4, 1, -1, {1, 2, 3, 4}) == (-1, {1, 2, 3, 4});
    assert Walk(StarAdj(), StarStrong(), 4, 0, -1, {1, 2, 3, 4}) == (-1, {1, 2, 3, 4});
    assert Branches(StarAdj(), StarStrong(), 1, 3, 1, {1, 2, 3, 4}) == 1;
    assert Branches(StarAdj(), StarStrong(), 1, 2, 1, {1, 2, 3}) == 1;
    assert Branches(StarAdj(), StarStrong(), 1, 1, 0, {1, 2}) == 1;
    assert Branches(StarAdj(), StarStrong(), 1, 0, 0, {1}) == 1;
  }

  lemma StarNode2()
    ensures Valid(StarAdj(), StarStrong())
    ensures Strength(StarAdj(), StarStrong(), 2) == -1
  {
    StarIsValid();
    assert {2} + {1} == {1, 2};
    assert {1, 2} + {3} == {1, 2, 3};
    assert Walk(StarAdj(), StarStrong(), 3, 1, 0, {1, 2, 3}) == (0, {1, 2, 3});
    assert Walk(StarAdj(), StarStrong(), 3, 0, 0, {1, 2, 3}) == (0, {1, 2, 3});
    assert {1, 2, 3} + {4} == {1, 2, 3, 4};
    assert Walk(StarAdj(), StarStrong(), 4, 1, -1, {1, 2, 3, 4}) == (-1, {1, 2, 3, 4});
    assert Walk(StarAdj(), StarStrong(), 4, 0, -1, {1, 2, 3, 4}) == (-1, {1, 2, 3, 4});
    assert Walk(StarAdj(), StarStrong(), 1, 3, 0, {1, 2, 3, 4}) == (0, {1, 2, 3, 4});
    assert Walk(StarAdj(), StarStrong(), 1, 2, 0, {1, 2, 3}) == (0, {1, 2, 3, 4});
    assert Walk(StarAdj(), StarStrong(), 1, 1, -1, {1, 2}) == (0, {1, 2, 3, 4});
    assert Walk(StarAdj(), StarStrong(), 1, 0, -1, {1, 2}) == (0, {1, 2, 3, 4});
    assert Branches(StarAdj(), StarStrong(), 2, 1, 0, {1, 2, 3, 4}) == 0;
    assert Branches(StarAdj(), StarStrong(), 2, 0, 0, {2}) == 0;
  }

  lemma StarNode3()
    ensures Valid(StarAdj(), StarStrong())
    ensures Strength(StarAdj(), StarStrong(), 3) == 1
  {
    StarIsValid();
    assert {3} + {1} == {1, 3};
    assert {1, 3} + {2} == {1, 2, 3};
    assert Walk(StarAdj(), StarStrong(), 2, 1, -2, {1, 2, 3}) == (-2, {1, 2, 3});
    assert Walk(StarAdj(), StarStrong(), 2, 0, -2, {1, 2, 3}) == (-2, {1, 2, 3});
    assert {1, 2, 3} + {4} == {1, 2, 3, 4};
    assert Walk(StarAdj(), StarStrong(), 4, 1, -2, {1, 2, 3, 4}) == (-2, {1, 2, 3, 4});
    assert Walk(StarAdj(), StarStrong(), 4, 0, -2, {1, 2, 3, 4}) == (-2, {1, 2, 3, 4});
    assert Walk(StarAdj(), StarStrong(), 1, 3, -1, {1, 2, 3, 4}) == (-1, {1, 2, 3, 4});
    assert Walk(StarAdj(), StarStrong(), 1, 2, -1, {1, 2, 3}) == (-1, {1, 2, 3, 4});
    assert Walk(StarAdj(), StarStrong(), 1, 1, -1, {1, 2, 3}) == (-1, {1, 2, 3, 4});
    assert Walk(StarAdj(), StarStrong(), 1, 0, -1, {1, 3}) == (-1, {1, 2, 3, 4});
    assert Branches(StarAdj(), StarStrong(), 3, 1, 0, {1, 2, 3, 4}) == 0;
    assert Branches(StarAdj(), StarStrong(), 3, 0, 0, {3}) == 0;
  }

  lemma StarNode4()
    ensures Valid(StarAdj(), StarStrong())
    ensures Strength(StarAdj(), StarStrong(), 4) == -1
  {
    StarIsValid();
    assert {4} + {1} == {1, 4};
    assert {1, 4} + {2} == {1, 2, 4};
    assert Walk(StarAdj(), StarStrong(), 2, 1, -2, {1, 2, 4}) == (-2, {1, 2, 4});
    assert Walk(StarAdj(), StarStrong(), 2, 0, -2, {1, 2, 4}) == (-2, {1, 2, 4});
    assert {1, 2, 4} + {3} == {1, 2, 3, 4};
    assert Walk(StarAdj(), StarStrong(), 3, 1, 0, {1, 2, 3, 4}) == (0, {1, 2, 3, 4});
    assert Walk(StarAdj(), StarStrong(), 3, 0, 0, {1, 2, 3, 4}) == (0, {1, 2, 3, 4});
    assert Walk(StarAdj(), StarStrong(), 1, 3, 0, {1, 2, 3, 4}) == (0, {1, 2, 3, 4});
    assert Walk(StarAdj(), StarStrong(), 1, 2, 0, {1, 2, 3, 4}) == (0, {1, 2, 3, 4});
    assert Walk(StarAdj(), StarStrong(), 1, 1, -1, {1, 2, 4}) == (0, {1, 2, 3, 4});
    assert Walk(StarAdj(), StarStrong(), 1, 0, -1, {1, 4}) == (0, {1, 2, 3, 4});
    assert Branches(StarAdj(), StarStrong(), 4, 1, 0, {1, 2, 3, 4}) == 0;
    assert Branches(StarAdj(), StarStrong(), 4, 0, 0, {4}) == 0;
  }

  function StarFrom(): seq<int> { [1, 1, 1] }

  function StarTo(): seq<int> { [2, 3, 4] }

  lemma StarStrengths()
    ensures Valid(StarAdj(), StarStrong())
    ensures forall i :: 0 <= i < 4 ==> [0, -1, 1, -1][i] == Strength(StarAdj(), StarStrong(), i + 1)
  {
    StarIsValid();
    forall i | 0 <= i < 4 ensures [0, -1, 1, -1][i] == Strength(StarAdj(), StarStrong(), i + 1) {
      if i == 0 { StarNode1(); assert [0, -1, 1, -1][0] == 0; } else if i == 1 { StarNode2(); assert [0, -1, 1, -1][1] == -1; } else if i == 2 { StarNode3(); assert [0, -1, 1, -1][2] == 1; } else if i == 3 { StarNode4(); assert [0, -1, 1, -1][3] == -1; }
    }
  }

  /** The first demo check (lines 65-78): a star around neuron 1. */
  lemma StarExample(n: nat, from: seq<int>, to: seq<int>, strong: seq<int>)
    requires n == 4 && from == [1, 1, 1] && to == [2, 3, 4] && strong == [0, 0, 1, 0]
    ensures GetNeuronStrengths(n, from, to, strong) == [0, -1, 1, -1]
  {
    assert forall i :: 0 <= i < n - 1 ==> 1 <= from[i] <= n && 1 <= to[i] <= n;
    StarEdges();
    StarStrengths();
    StrengthsInOrder(n, from, to, strong, StarAdj(), [0, -1, 1, -1]);
  }

  function AllStrongAdj(): Adj { [[], [2, 3], [1], [1, 4, 5], [3], [3]] }

  function AllStrongStrong(): seq<int> { [1, 1, 1, 1, 1] }

  lemma AllStrongEdges()
    ensures Edges(5, [1, 1, 3, 3], [2, 3, 4, 5], 4) == AllStrongAdj()
  {
    var f, t := [1, 1, 3, 3], [2, 3, 4, 5];
    assert Edges(5, f, t, 0) == [[], [], [], [], [], []];
    assert [] + [2] == [2];
    assert [] + [1] == [1];
    assert AddEdge([[], [], [], [], [], []], 1, 2) == [[], [2], [1], [], [], []];
    assert Edges(5, f, t, 1) == [[], [2], [1], [], [], []];
    assert [2] + [3] == [2, 3];
    assert [] + [1] == [1];
    assert AddEdge([[], [2], [1], [], [], []], 1, 3) == [[], [2, 3], [1], [1], [], []];
    assert Edges(5, f, t, 2) == [[], [2, 3], [1], [1], [], []];
    assert [1] + [4] == [1, 4];
    assert [] + [3] == [3];
    assert AddEdge([[], [2, 3], [1], [1], [], []], 3, 4) == [[], [2, 3], [1], [1, 4], [3], []];
    assert Edges(5, f, t, 3) == [[], [2, 3], [1], [1, 4], [3], []];
    assert [1, 4] + [5] == [1, 4, 5];
    assert [] + [3] == [3];
    assert AddEdge([[], [2, 3], [1], [1, 4], [3], []], 3, 5) == [[], [2, 3], [1], [1, 4, 5], [3], [3]];
    assert Edges(5, f, t, 4) == [[], [2, 3], [1], [1, 4, 5], [3], [3]];
  }

  lemma AllStrongIsValid()
    ensures Valid(AllStrongAdj(), AllStrongStrong())
  {
    AllStrongEdges();
    EdgesValid(5, [1, 1, 3, 3], [2, 3, 4, 5], 4, AllStrongStrong());
  }

  lemma AllStrongNode1()
    ensures Valid(AllStrongAdj(), AllStrongStrong())
    ensures Strength(AllStrongAdj(), AllStrongStrong(), 1) == 5
  {
    AllStrongIsValid();
    assert {1} + {2} == {1, 2};
    assert Walk(AllStrongAdj(), AllStrongStrong(), 2, 1, 1, {1, 2}) == (1, {1, 2});
    assert Walk(AllStrongAdj(), AllStrongStrong(), 2, 0, 1, {1, 2}) == (1, {1, 2});
    assert {1, 2} + {3} == {1, 2, 3};
    assert {1, 2, 3} + {4} == {1, 2, 3, 4};
    assert Walk(AllStrongAdj(), AllStrongStrong(), 4, 1, 2, {1, 2, 3, 4}) == (2, {1, 2, 3, 4});
    assert Walk(AllStrongAdj(), AllStrongStrong(), 4, 0, 2, {1, 2, 3, 4}) == (2, {1, 2, 3, 4});
    assert {1, 2, 3, 4} + {5} == {1, 2, 3, 4, 5};
    assert Walk(AllStrongAdj(), AllStrongStrong(), 5, 1, 3, {1, 2, 3, 4, 5}) == (3, {1, 2, 3, 4, 5});
    assert Walk(AllStrongAdj(), AllStrongStrong(), 5, 0, 3, {1, 2, 3, 4, 5}) == (3, {1, 2, 3, 4, 5});
    assert Walk(AllStrongAdj(), AllStrongStrong(), 3, 3, 3, {1, 2, 3, 4, 5}) == (3, {1, 2, 3, 4, 5});
    assert Walk(AllStrongAdj(), AllStrongStrong(), 3, 2, 2, {1, 2, 3, 4}) == (3, {1, 2, 3, 4, 5});
    assert Walk(AllStrongAdj(), AllStrongStrong(), 3, 1, 1, {1, 2, 3}) == (3, {1, 2, 3, 4, 5});
    assert Walk(AllStrongAdj(), AllStrongStrong(), 3, 0, 1, {1, 2, 3}) == (3, {1, 2, 3, 4, 5});
    assert Branches(AllStrongAdj(), AllStrongStrong(), 1, 2, 4, {1, 2, 3, 4, 5}) == 4;
    assert Branches(AllStrongAdj(), AllStrongStrong(), 1, 1, 1, {1, 2}) == 4;
    assert Branches(AllStrongAdj(), AllStrongStrong(), 1, 0, 0, {1}) == 4;
  }

  lemma AllStrongNode2()
    ensures Valid(AllStrongAdj(), AllStrongStrong())
    ensures Strength(AllStrongAdj(), AllStrongStrong(), 2) == 5
  {
    AllStrongIsValid();
    assert {2} + {1} == {1, 2};
    assert {1, 2} + {3} == {1, 2, 3};
    assert {1, 2, 3} + {4} == {1, 2, 3, 4};
    assert Walk(AllStrongAdj(), AllStrongStrong(), 4, 1, 3, {1, 2, 3, 4}) == (3, {1, 2, 3, 4});
    assert Walk(AllStrongAdj(), AllStrongStrong(), 4, 0, 3, {1, 2, 3, 4}) == (3, {1, 2, 3, 4});
    assert {1, 2, 3, 4} + {5} == {1, 2, 3, 4, 5};
    assert Walk(AllStrongAdj(), AllStrongStrong(), 5, 1, 4, {1, 2, 3, 4, 5}) == (4, {1, 2, 3, 4, 5});
    assert Walk(AllStrongAdj(), AllStrongStrong(), 5, 0, 4, {1, 2, 3, 4, 5}) == (4, {1, 2, 3, 4, 5});
    assert Walk(AllStrongAdj(), AllStrongStrong(), 3, 3, 4, {1, 2, 3, 4, 5}) == (4, {1, 2, 3, 4, 5});
    assert Walk(AllStrongAdj(), AllStrongStrong(), 3, 2, 3, {1, 2, 3, 4}) == (4, {1, 2, 3, 4, 5});
    assert Walk(AllStrongAdj(), AllStrongStrong(), 3, 1, 2, {1, 2, 3}) == (4, {1, 2, 3, 4, 5});
    assert Walk(AllStrongAdj(), AllStrongStrong(), 3, 0, 2, {1, 2, 3}) == (4, {1, 2, 3, 4, 5});
    assert Walk(AllStrongAdj(), AllStrongStrong(), 1, 2, 4, {1, 2, 3, 4, 5}) == (4, {1, 2, 3, 4, 5});
    assert Walk(AllStrongAdj(), AllStrongStrong(), 1, 1, 1, {1, 2}) == (4, {1, 2, 3, 4, 5});
    assert Walk(AllStrongAdj(), AllStrongStrong(), 1, 0, 1, {1, 2}) == (4, {1, 2, 3, 4, 5});
    assert Branches(AllStrongAdj(), AllStrongStrong(), 2, 1, 4, {1, 2, 3, 4, 5}) == 4;
    assert Branches(AllStrongAdj(), AllStrongStrong(), 2, 0, 0, {2}) == 4;
  }

  lemma AllStrongNode3()
    ensures Valid(AllStrongAdj(), AllStrongStrong())
    ensures Strength(AllStrongAdj(), AllStrongStrong(), 3) == 5
  {
    AllStrongIsValid();
    assert {3} + {1} == {1, 3};
    assert {1, 3} + {2} == {1, 2, 3};
    assert Walk(AllStrongAdj(), AllStrongStrong(), 2, 1, 2, {1, 2, 3}) == (2, {1, 2, 3});
    assert Walk(AllStrongAdj(), AllStrongStrong(), 2, 0, 2, {1, 2, 3}) == (2, {1, 2, 3});
    assert Walk(AllStrongAdj(), AllStrongStrong(), 1, 2, 2, {1, 2, 3}) == (2, {1, 2, 3});
    assert Walk(AllStrongAdj(), AllStrongStrong(), 1, 1, 2, {1, 2, 3}) == (2, {1, 2, 3});
    assert Walk(AllStrongAdj(), AllStrongStrong(), 1, 0, 1, {1, 3}) == (2, {1, 2, 3});
    assert {1, 2, 3} + {4} == {1, 2, 3, 4};
    assert Walk(AllStrongAdj(), AllStrongStrong(), 4, 1, 1, {1, 2, 3, 4}) == (1, {1, 2, 3, 4});
    assert Walk(AllStrongAdj(), AllStrongStrong(), 4, 0, 1, {1, 2, 3, 4}) == (1, {1, 2, 3, 4});
    assert {1, 2, 3, 4} + {5} == {1, 2, 3, 4, 5};
    assert Walk(AllStrongAdj(), AllStrongStrong(), 5, 1, 1, {1, 2, 3, 4, 5}) == (1, {1, 2, 3, 4, 5});
    assert Walk(AllStrongAdj(), AllStrongStrong(), 5, 0, 1, {1, 2, 3, 4, 5}) == (1, {1, 2, 3, 4, 5});
    assert Branches(AllStrongAdj(), AllStrongStrong(), 3, 3, 4, {1, 2, 3, 4, 5}) == 4;
    assert Branches(AllStrongAdj(), AllStrongStrong(), 3, 2, 3, {1, 2, 3, 4}) == 4;
    assert Branches(AllStrongAdj(), AllStrongStrong(), 3, 1, 2, {1, 2, 3}) == 4;
    assert Branches(AllStrongAdj(), AllStrongStrong(), 3, 0, 0, {3}) == 4;
  }

  lemma AllStrongNode4()
    ensures Valid(AllStrongAdj(), AllStrongStrong())
    ensures Strength(AllStrongAdj(), AllStrongStrong(), 4) == 5
  {
    AllStrongIsValid();
    assert {4} + {3} == {3, 4};
    assert {3, 4} + {1} == {1, 3, 4};
    assert {1, 3, 4} + {2} == {1, 2, 3, 4};
    assert Walk(AllStrongAdj(), AllStrongStrong(), 2, 1, 3, {1, 2, 3, 4}) == (3, {1, 2, 3, 4});
    assert Walk(AllStrongAdj(), AllStrongStrong(), 2, 0, 3, {1, 2, 3, 4}) == (3, {1, 2, 3, 4});
    assert Walk(AllStrongAdj(), AllStrongStrong(), 1, 2, 3, {1, 2, 3, 4}) == (3, {1, 2, 3, 4});
    assert Walk(AllStrongAdj(), AllStrongStrong(), 1, 1, 3, {1, 2, 3, 4}) == (3, {1, 2, 3, 4});
    assert Walk(AllStrongAdj(), AllStrongStrong(), 1, 0, 2, {1, 3, 4}) == (3, {1, 2, 3, 4});
    assert {1, 2, 3, 4} + {5} == {1, 2, 3, 4, 5};
    assert Walk(AllStrongAdj(), AllStrongStrong(), 5, 1, 4, {1, 2, 3, 4, 5}) == (4, {1, 2, 3, 4, 5});
    assert Walk(AllStrongAdj(), AllStrongStrong(), 5, 0, 4, {1, 2, 3, 4, 5}) == (4, {1, 2, 3, 4, 5});
    assert Walk(AllStrongAdj(), AllStrongStrong(), 3, 3, 4, {1, 2, 3, 4, 5}) == (4, {1, 2, 3, 4, 5});
    assert Walk(AllStrongAdj(), AllStrongStrong(), 3, 2, 3, {1, 2, 3, 4}) == (4, {1, 2, 3, 4, 5});
    assert Walk(AllStrongAdj(), AllStrongStrong(), 3, 1, 3, {1, 2, 3, 4}) == (4, {1, 2, 3, 4, 5});
    assert Walk(AllStrongAdj(), AllStrongStrong(), 3, 0, 1, {3, 4}) == (4, {1, 2, 3, 4, 5});
    assert Branches(AllStrongAdj(), AllStrongStrong(), 4, 1, 4, {1, 2, 3, 4, 5}) == 4;
    assert Branches(AllStrongAdj(), AllStrongStrong(), 4, 0, 0, {4}) == 4;
  }

  lemma AllStrongNode5()
    ensures Valid(AllStrongAdj(), AllStrongStrong())
    ensures Strength(AllStrongAdj(), AllStrongStrong(), 5) == 5
  {
    AllStrongIsValid();
    assert {5} + {3} == {3, 5};
    assert {3, 5} + {1} == {1, 3, 5};
    assert {1, 3, 5} + {2} == {1, 2, 3, 5};
    assert Walk(AllStrongAdj(), AllStrongStrong(), 2, 1, 3, {1, 2, 3, 5}) == (3, {1, 2, 3, 5});
    assert Walk(AllStrongAdj(), AllStrongStrong(), 2, 0, 3, {1, 2, 3, 5}) == (3, {1, 2, 3, 5});
    assert Walk(AllStrongAdj(), AllStrongStrong(), 1, 2, 3, {1, 2, 3, 5}) == (3, {1, 2, 3, 5});
    assert Walk(AllStrongAdj(), AllStrongStrong(), 1, 1, 3, {1, 2, 3, 5}) == (3, {1, 2, 3, 5});
    assert Walk(AllStrongAdj(), AllStrongStrong(), 1, 0, 2, {1, 3, 5}) == (3, {1, 2, 3, 5});
    assert {1, 2, 3, 5} + {4} == {1, 2, 3, 4, 5};
    assert Walk(AllStrongAdj(), AllStrongStrong(), 4, 1, 4, {1, 2, 3, 4, 5}) == (4, {1, 2, 3, 4, 5});
    assert Walk(AllStrongAdj(), AllStrongStrong(), 4, 0, 4, {1, 2, 3, 4, 5}) == (4, {1, 2, 3, 4, 5});
    assert Walk(AllStrongAdj(), AllStrongStrong(), 3, 3, 4, {1, 2, 3, 4, 5}) == (4, {1, 2, 3, 4, 5});
    assert Walk(AllStrongAdj(), AllStrongStrong(), 3, 2, 4, {1, 2, 3, 4, 5}) == (4, {1, 2, 3, 4, 5});
    assert Walk(AllStrongAdj(), AllStrongStrong(), 3, 1, 3, {1, 2, 3, 5}) == (4, {1, 2, 3, 4, 5});
    assert Walk(AllStrongAdj(), AllStrongStrong(), 3, 0, 1, {3, 5}) == (4, {1, 2, 3, 4, 5});
    assert Branches(AllStrongAdj(), AllStrongStrong(), 5, 1, 4, {1, 2, 3, 4, 5}) == 4;
    assert Branches(AllStrongAdj(), AllStrongStrong(), 5, 0, 0, {5}) == 4;
  }

  function AllStrongFrom(): seq<int> { [1, 1, 3, 3] }

  function AllStrongTo(): seq<int> { [2, 3, 4, 5] }

  lemma AllStrongStrengths()
    ensures Valid(AllStrongAdj(), AllStrongStrong())
    ensures forall i :: 0 <= i < 5 ==> [5, 5, 5, 5, 5][i] == Strength(AllStrongAdj(), AllStrongStrong(), i + 1)
  {
    AllStrongIsValid();
    forall i | 0 <= i < 5 ensures [5, 5, 5, 5, 5][i] == Strength(AllStrongAdj(), AllStrongStrong(), i + 1) {
      if i == 0 { AllStrongNode1(); assert [5, 5, 5, 5, 5][0] == 5; } else if i == 1 { AllStrongNode2(); assert [5, 5, 5, 5, 5][1] == 5; } else if i == 2 { AllStrongNode3(); assert [5, 5, 5, 5, 5][2] == 5; } else if i == 3 { AllStrongNode4(); assert [5, 5, 5, 5, 5][3] == 5; } else if i == 4 { AllStrongNode5(); assert [5, 5, 5, 5, 5][4] == 5; }
    }
  }

  /** The second demo check (lines 80-93): every neuron strong, so each takes the whole tree. */
  lemma AllStrongExample(n: nat, from: seq<int>, to: seq<int>, strong: seq<int>)
    requires n == 5 && from == [1, 1, 3, 3] && to == [2, 3, 4, 5] && strong == [1, 1, 1, 1, 1]
    ensures GetNeuronStrengths(n, from, to, strong) == [5, 5, 5, 5, 5]
  {
    assert forall i :: 0 <= i < n - 1 ==> 1 <= from[i] <= n && 1 <= to[i] <= n;
    AllStrongEdges();
    AllStrongStrengths();
    StrengthsInOrder(n, from, to, strong, AllStrongAdj(), [5, 5, 5, 5, 5]);
  }

  function PathAdj(): Adj { [[], [2], [1, 3], [2, 4], [3]] }

  function PathStrong(): seq<int> { [0, 1, 1, 0] }

  lemma PathEdges()
    ensures Edges(4, [1, 2, 3], [2, 3, 4], 3) == PathAdj()
  {
    var f, t := [1, 2, 3], [2, 3, 4];
    assert Edges(4, f, t, 0) == [[], [], [], [], []];
    assert [] + [2] == [2];
    assert [] + [1] == [1];
    assert AddEdge([[], [], [], [], []], 1, 2) == [[], [2], [1], [], []];
    assert Edges(4, f, t, 1) == [[], [2], [1], [], []];
    assert [1] + [3] == [1, 3];
    assert [] + [2] == [2];
    assert AddEdge([[], [2], [1], [], []], 2, 3) == [[], [2], [1, 3], [2], []];
    assert Edges(4, f, t, 2) == [[], [2], [1, 3], [2], []];
    assert [2] + [4] == [2, 4];
    assert [] + [3] == [3];
    assert AddEdge([[], [2], [1, 3], [2], []], 3, 4) == [[], [2], [1, 3], [2, 4], [3]];
    assert Edges(4, f, t, 3) == [[], [2], [1, 3], [2, 4], [3]];
  }

  lemma PathIsValid()
    ensures Valid(PathAdj(), PathStrong())
  {
    PathEdges();
    EdgesValid(4, [1, 2, 3], [2, 3, 4], 3, PathStrong());
  }

  lemma PathNode1()
    ensures Valid(PathAdj(), PathStrong())
    ensures Strength(PathAdj(), PathStrong(), 1) == 1
  {
    PathIsValid();
    assert {1} + {2} == {1, 2};
    assert {1, 2} + {3} == {1, 2, 3};
    assert {1, 2, 3} + {4} == {1, 2, 3, 4};
    assert Walk(PathAdj(), PathStrong(), 4, 1, 1, {1, 2, 3, 4}) == (1, {1, 2, 3, 4});
    assert Walk(PathAdj(), PathStrong(), 4, 0, 1, {1, 2, 3, 4}) == (1, {1, 2, 3, 4});
    assert Walk(PathAdj(), PathStrong(), 3, 2, 2, {1, 2, 3, 4}) == (2, {1, 2, 3, 4});
    assert Walk(PathAdj(), PathStrong(), 3, 1, 2, {1, 2, 3}) == (2, {1, 2, 3, 4});
    assert Walk(PathAdj(), PathStrong(), 3, 0, 2, {1, 2, 3}) == (2, {1, 2, 3, 4});
    assert Walk(PathAdj(), PathStrong(), 2, 2, 2, {1, 2, 3, 4}) == (2, {1, 2, 3, 4});
    assert Walk(PathAdj(), PathStrong(), 2, 1, 1, {1, 2}) == (2, {1, 2, 3, 4});
    assert Walk(PathAdj(), PathStrong(), 2, 0, 1, {1, 2}) == (2, {1, 2, 3, 4});
    assert Branches(PathAdj(), PathStrong(), 1, 1, 2, {1, 2, 3, 4}) == 2;
    assert Branches(PathAdj(), PathStrong(), 1, 0, 0, {1}) == 2;
  }

  lemma PathNode2()
    ensures Valid(PathAdj(), PathStrong())
    ensures Strength(PathAdj(), PathStrong(), 2) == 2
  {
    PathIsValid();
    assert {2} + {1} == {1, 2};
    assert Walk(PathAdj(), PathStrong(), 1, 1, -1, {1, 2}) == (-1, {1, 2});
    assert Walk(PathAdj(), PathStrong(), 1, 0, -1, {1, 2}) == (-1, {1, 2});
    assert {1, 2} + {3} == {1, 2, 3};
    assert {1, 2, 3} + {4} == {1, 2, 3, 4};
    assert Walk(PathAdj(), PathStrong(), 4, 1, 0, {1, 2, 3, 4}) == (0, {1, 2, 3, 4});
    assert Walk(PathAdj(), PathStrong(), 4, 0, 0, {1, 2, 3, 4}) == (0, {1, 2, 3, 4});
    assert Walk(PathAdj(), PathStrong(), 3, 2, 1, {1, 2, 3, 4}) == (1, {1, 2, 3, 4});
    assert Walk(PathAdj(), PathStrong(), 3, 1, 1, {1, 2, 3}) == (1, {1, 2, 3, 4});
    assert Walk(PathAdj(), PathStrong(), 3, 0, 1, {1, 2, 3}) == (1, {1, 2, 3, 4});
    assert Branches(PathAdj(), PathStrong(), 2, 2, 1, {1, 2, 3, 4}) == 1;
    assert Branches(PathAdj(), PathStrong(), 2, 1, 0, {1, 2}) == 1;
    assert Branches(PathAdj(), PathStrong(), 2, 0, 0, {2}) == 1;
  }

  lemma PathNode3()
    ensures Valid(PathAdj(), PathStrong())
    ensures Strength(PathAdj(), PathStrong(), 3) == 2
  {
    PathIsValid();
    assert {3} + {2} == {2, 3};
    assert {2, 3} + {1} == {1, 2, 3};
    assert Walk(PathAdj(), PathStrong(), 1, 1, 0, {1, 2, 3}) == (0, {1, 2, 3});
    assert Walk(PathAdj(), PathStrong(), 1, 0, 0, {1, 2, 3}) == (0, {1, 2, 3});
    assert Walk(PathAdj(), PathStrong(), 2, 2, 1, {1, 2, 3}) == (1, {1, 2, 3});
    assert Walk(PathAdj(), PathStrong(), 2, 1, 1, {1, 2, 3}) == (1, {1, 2, 3});
    assert Walk(PathAdj(), PathStrong(), 2, 0, 1, {2, 3}) == (1, {1, 2, 3});
    assert {1, 2, 3} + {4} == {1, 2, 3, 4};
    assert Walk(PathAdj(), PathStrong(), 4, 1, -1, {1, 2, 3, 4}) == (-1, {1, 2, 3, 4});
    assert Walk(PathAdj(), PathStrong(), 4, 0, -1, {1, 2, 3, 4}) == (-1, {1, 2, 3, 4});
    assert Branches(PathAdj(), PathStrong(), 3, 2, 1, {1, 2, 3, 4}) == 1;
    assert Branches(PathAdj(), PathStrong(), 3, 1, 1, {1, 2, 3}) == 1;
    assert Branches(PathAdj(), PathStrong(), 3, 0, 0, {3}) == 1;
  }

  lemma PathNode4()
    ensures Valid(PathAdj(), PathStrong())
    ensures Strength(PathAdj(), PathStrong(), 4) == 1
  {
    PathIsValid();
    assert {4} + {3} == {3, 4};
    assert {3, 4} + {2} == {2, 3, 4};
    assert {2, 3, 4} + {1} == {1, 2, 3, 4};
    assert Walk(PathAdj(), PathStrong(), 1, 1, 1, {1, 2, 3, 4}) == (1, {1, 2, 3, 4});
    assert Walk(PathAdj(), PathStrong(), 1, 0, 1, {1, 2, 3, 4}) == (1, {1, 2, 3, 4});
    assert Walk(PathAdj(), PathStrong(), 2, 2, 2, {1, 2, 3, 4}) == (2, {1, 2, 3, 4});
    assert Walk(PathAdj(), PathStrong(), 2, 1, 2, {1, 2, 3, 4}) == (2, {1, 2, 3, 4});
    assert Walk(PathAdj(), PathStrong(), 2, 0, 2, {2, 3, 4}) == (2, {1, 2, 3, 4});
    assert Walk(PathAdj(), PathStrong(), 3, 2, 2, {1, 2, 3, 4}) == (2, {1, 2, 3, 4});
    assert Walk(PathAdj(), PathStrong(), 3, 1, 2, {1, 2, 3, 4}) == (2, {1, 2, 3, 4});
    assert Walk(PathAdj(), PathStrong(), 3, 0, 1, {3, 4}) == (2, {1, 2, 3, 4});
    assert Branches(PathAdj(), PathStrong(), 4, 1, 2, {1, 2, 3, 4}) == 2;
    assert Branches(PathAdj(), PathStrong(), 4, 0, 0, {4}) == 2;
  }

  function PathFrom(): seq<int> { [1, 2, 3] }

  function PathTo(): seq<int> { [2, 3, 4] }

  lemma PathStrengths()
    ensures Valid(PathAdj(), PathStrong())
    ensures forall i :: 0 <= i < 4 ==> [1, 2, 2, 1][i] == Strength(PathAdj(), PathStrong(), i + 1)
  {
    PathIsValid();
    forall i | 0 <= i < 4 ensures [1, 2, 2, 1][i] == Strength(PathAdj(), PathStrong(), i + 1) {
      if i == 0 { PathNode1(); assert [1, 2, 2, 1][0] == 1; } else if i == 1 { PathNode2(); assert [1, 2, 2, 1][1] == 2; } else if i == 2 { PathNode3(); assert [1, 2, 2, 1][2] == 2; } else if i == 3 { PathNode4(); assert [1, 2, 2, 1][3] == 1; }
    }
  }

  /** The third demo check (lines 95-106): a path whose inner neurons are strong. */
  lemma PathExample(n: nat, from: seq<int>, to: seq<int>, strong: seq<int>)
    requires n == 4 && from == [1, 2, 3] && to == [2, 3, 4] && strong == [0, 1, 1, 0]
    ensures GetNeuronStrengths(n, from, to, strong) == [1, 2, 2, 1]
  {
    assert forall i :: 0 <= i < n - 1 ==> 1 <= from[i] <= n && 1 <= to[i] <= n;
    PathEdges();
    PathStrengths();
    StrengthsInOrder(n, from, to, strong, PathAdj(), [1, 2, 2, 1]);
  }
}
