/** `ChemicalMachine` of old/leetcoding01.py: a container of chemicals that a
    heating step transforms by a fixed reaction table. */
module ChemicalMachine {

  type Chemical = string

  datatype Machine = Machine(content: seq<Chemical>)

  const Empty := Machine([])

  /** `add` (lines 14-15). */
  function Add(m: Machine, chemical: Chemical): (r: Machine)
    ensures |r.content| == |m.content| + 1
    ensures r.content[..|m.content|] == m.content && r.content[|m.content|] == chemical
  {
    Machine(m.content + [chemical])
  }

  /** `apply_heat` (lines 17-38), reading the contents through a `Counter`
      exactly as the source does. */
  function ApplyHeat(m: Machine): (r: Machine)
    ensures |m.content| > 2 ==> r.content == ["UNKNOWN"]
    ensures |m.content| == 0 ==> r == m
    ensures 0 < |m.content| ==> |r.content| in {1, 2}
  {
    var size := |m.content|;
    var counter := multiset(m.content);
    if size > 2 then Machine(["UNKNOWN"])
    else if size == 2 then
      if counter["GREEN"] == 2 then Machine(["ORANGE"])
      else if counter["GREEN"] == 1 && counter["YELLOW"] == 1 then Machine(["BROWN"])
      else Machine(["UNKNOWN"])
    else if size == 1 then
      if counter["ORANGE"] == 1 then Machine(["RED", "RED"])
      else if counter["BROWN"] == 1 then Machine(["MAGENTA"])
      else Machine(["UNKNOWN"])
    else m
  }

  /** `empty_machine` (lines 40-43): the contents handed back, and an empty machine. */
  function EmptyMachine(m: Machine): (r: (Machine, seq<Chemical>))
    ensures r.0.content == [] && r.1 == m.content
  {
    (Empty, m.content)
  }

  /** The reaction table written positionally: what a pair or a single chemical
      turns into. */
  function PairReaction(a: Chemical, b: Chemical): seq<Chemical> {
    if a == "GREEN" && b == "GREEN" then ["ORANGE"]
    else if (a == "GREEN" && b == "YELLOW") || (a == "YELLOW" && b == "GREEN") then ["BROWN"]
    else ["UNKNOWN"]
  }

  function SingleReaction(a: Chemical): seq<Chemical> {
    if a == "ORANGE" then ["RED", "RED"]
    else if a == "BROWN" then ["MAGENTA"]
    else ["UNKNOWN"]
  }

  /** The counter-based heating agrees with the positional table. */
  lemma HeatMatchesTable(m: Machine)
    ensures |m.content| == 2 ==> ApplyHeat(m).content == PairReaction(m.content[0], m.content[1])
    ensures |m.content| == 1 ==> ApplyHeat(m).content == SingleReaction(m.content[0])
  {
    if |m.content| == 2 {
      var a, b := m.content[0], m.content[1];
      assert m.content == [a] + [b];
      assert multiset(m.content) == multiset{a, b};
    } else if |m.content| == 1 {
      assert multiset(m.content) == multiset{m.content[0]};
    }
  }

  /** Heating depends only on which chemicals are inside, not on the order
      they were added: GREEN then YELLOW and YELLOW then GREEN both give BROWN. */
  lemma HeatIgnoresOrder(m: Machine, n: Machine)
    requires multiset(m.content) == multiset(n.content)
    ensures ApplyHeat(m) == ApplyHeat(n)
  {
    assert |m.content| == |multiset(m.content)| == |n.content|;
    if |m.content| == 0 {
      assert m.content == [] == n.content;
    }
  }

  /** Heating twice from one chemical: ORANGE turns into two REDs, which then
      turn UNKNOWN. */
  lemma HeatOrangeTwice()
    ensures ApplyHeat(Machine(["ORANGE"])).content == ["RED", "RED"]
    ensures ApplyHeat(ApplyHeat(Machine(["ORANGE"]))).content == ["UNKNOWN"]
  {
    HeatMatchesTable(Machine(["ORANGE"]));
    HeatMatchesTable(Machine(["RED", "RED"]));
  }

  /** An UNKNOWN result is a fixed point of heating. */
  lemma UnknownIsStable(m: Machine)
    requires m.content == ["UNKNOWN"]
    ensures ApplyHeat(m) == m
  {
    HeatMatchesTable(m);
  }

  /** The demonstration at the end of the file: GREEN and YELLOW heated give
      BROWN; then, on the emptied machine, RED and YELLOW give UNKNOWN. */
  lemma DemoRun()
    ensures var m1 := ApplyHeat(Add(Add(Empty, "GREEN"), "YELLOW"));
      var (m2, out1) := EmptyMachine(m1);
      var m3 := ApplyHeat(Add(Add(m2, "RED"), "YELLOW"));
      out1 == ["BROWN"] && EmptyMachine(m3).1 == ["UNKNOWN"] && EmptyMachine(m3).0 == Empty
  {
    assert Add(Add(Empty, "GREEN"), "YELLOW").content == ["GREEN", "YELLOW"];
    HeatMatchesTable(Machine(["GREEN", "YELLOW"]));
    assert Add(Add(Empty, "RED"), "YELLOW").content == ["RED", "YELLOW"];
    HeatMatchesTable(Machine(["RED", "YELLOW"]));
  }

  /** Adding a run of chemicals to an empty machine and emptying it hands them
      back in the order they were added. */
  function AddAll(m: Machine, cs: seq<Chemical>): (r: Machine)
    ensures |r.content| == |m.content| + |cs|
    decreases |cs|
  {
    if |cs| == 0 then m else AddAll(Add(m, cs[0]), cs[1..])
  }

  lemma {:induction false} AddAllThenEmpty(m: Machine, cs: seq<Chemical>)
    ensures EmptyMachine(AddAll(m, cs)).1 == m.content + cs
    decreases |cs|
  {
    if |cs| > 0 {
      AddAllThenEmpty(Add(m, cs[0]), cs[1..]);
      assert m.content + [cs[0]] + cs[1..] == m.content + cs;
    }
  }
}
