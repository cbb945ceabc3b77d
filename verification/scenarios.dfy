/** Two small corpora worked through the graph model. */
module Scenarios {
  import opened Wrappers
  import opened GraphModel
  import opened Walks
  import Words

  const CatDoc: seq<string> := ["The", "cat", "sat.", "The", "cat", "ran."]

  // The graph after each prefix of CatDoc.
  const Cat1 := GraphState(map["The" := map[]], ["The"])
  const Cat2 := GraphState(map["The" := map["cat" := 1], "cat" := map[]], ["The"])
  const Cat3 := GraphState(map["The" := map["cat" := 1], "cat" := map["sat." := 1], "sat." := map[]], ["The"])
  const Cat4 := GraphState(map["The" := map["cat" := 1], "cat" := map["sat." := 1], "sat." := map["The" := 1]], ["The"])
  const Cat5 := GraphState(map["The" := map["cat" := 2], "cat" := map["sat." := 1], "sat." := map["The" := 1]], ["The"])
  const Cat6 := GraphState(
    map["The" := map["cat" := 2], "cat" := map["sat." := 1, "ran." := 1], "sat." := map["The" := 1], "ran." := map[]],
    ["The"])

  // One `add` at a time, each from the graph before it.
  lemma AddSat()
    ensures Added(Cat2, "sat.", Some("cat")) == Cat3
  {
  }

  lemma AddSecondThe()
    ensures Added(Cat3, "The", Some("sat.")) == Cat4
  {
  }

  lemma AddSecondCat()
    ensures Added(Cat4, "cat", Some("The")) == Cat5
  {
    assert "cat" in Cat4.nodes;
    var edges := Cat4.nodes["The"];
    assert edges == map["cat" := 1];
    assert Strengthened(edges, "cat") == map["cat" := 2];
    assert Inserted(Cat4, "cat") == Cat4;
    assert Cat4.nodes["The" := map["cat" := 2]] == Cat5.nodes;
  }

  lemma AddRan()
    ensures Added(Cat5, "ran.", Some("cat")) == Cat6
  {
    assert !Words.IsEntryWord("ran.");
    var inserted := Inserted(Cat5, "ran.");
    assert inserted == GraphState(Cat5.nodes["ran." := map[]], ["The"]);
    assert Strengthened(inserted.nodes["cat"], "ran.") == map["sat." := 1, "ran." := 1];
  }

  lemma CatPrefix2()
    ensures IngestDoc(Empty, CatDoc[..2]) == Cat2
  {
    assert CatDoc[..2][..1] == CatDoc[..1] && CatDoc[..1][..0] == [];
    assert IngestDoc(Empty, CatDoc[..1]) == Cat1;
  }

  lemma CatPrefix3()
    ensures IngestDoc(Empty, CatDoc[..3]) == Cat3
  {
    CatPrefix2();
    assert CatDoc[..3][..2] == CatDoc[..2];
    AddSat();
  }

  lemma CatPrefix4()
    ensures IngestDoc(Empty, CatDoc[..4]) == Cat4
  {
    CatPrefix3();
    assert CatDoc[..4][..3] == CatDoc[..3];
    AddSecondThe();
  }

  lemma CatPrefix5()
    ensures IngestDoc(Empty, CatDoc[..5]) == Cat5
  {
    CatPrefix4();
    assert CatDoc[..5][..4] == CatDoc[..4];
    AddSecondCat();
  }

  /** One document "The cat sat. The cat ran.": the second "The" is not a new
      node, so the entry-word list holds "The" once, and since the whole text
      is one document "sat." is followed by "The". */
  lemma OneDocument()
    ensures Ingest(Empty, [CatDoc]) == Cat6
  {
    CatPrefix5();
    assert CatDoc[..5] == CatDoc[..|CatDoc| - 1];
    AddRan();
    assert [CatDoc][..0] == [];
  }

  /** Two documents "Hello world." and "Goodbye now.": the last word of the
      first is a node, and it is not linked to the first word of the second. */
  lemma NoEdgeAcrossDocuments()
    ensures "world." in Ingest(Empty, [["Hello", "world."], ["Goodbye", "now."]]).nodes
    ensures EdgeWeight(Ingest(Empty, [["Hello", "world."], ["Goodbye", "now."]]), "world.", "Goodbye") == 0
  {
    var docs := [["Hello", "world."], ["Goodbye", "now."]];
    IngestNodes(Empty, docs);
    IngestWeights(Empty, docs, "world.", "Goodbye");
    assert "world." in docs[0];
    assert docs[..1] == [docs[0]] && docs[..1][..0] == [];
    assert Pairs(docs[0], "world.", "Goodbye") == 0 by {
      assert docs[0][..1] == ["Hello"] && docs[0][0] != "world.";
    }
    assert Pairs(docs[1], "world.", "Goodbye") == 0 by {
      assert docs[1][..1] == ["Goodbye"] && docs[1][0] != "world.";
    }
    assert PairCount(docs[..1], "world.", "Goodbye") == 0;
  }

  const TwoDocs: seq<seq<string>> := [["A", "b."], ["C", "d"]]

  // The graph TwoDocs builds from a new generator.
  const TwoGraph := GraphState(
    map["A" := map["b." := 1], "b." := map[], "C" := map["d" := 1], "d" := map[]],
    ["A", "C"])

  // The graph after the first of TwoDocs.
  const AB := GraphState(map["A" := map["b." := 1], "b." := map[]], ["A"])

  lemma AddB()
    ensures Added(GraphState(map["A" := map[]], ["A"]), "b.", Some("A")) == AB
  {
    assert !Words.IsEntryWord("b.");
    var inserted := Inserted(GraphState(map["A" := map[]], ["A"]), "b.");
    assert inserted == GraphState(map["A" := map[], "b." := map[]], ["A"]);
    assert Strengthened(map[], "b.") == map["b." := 1];
  }

  lemma FirstOfTwo()
    ensures IngestDoc(Empty, ["A", "b."]) == AB
  {
    var doc := ["A", "b."];
    assert doc[..1] == ["A"] && doc[..1][..0] == [];
    assert Words.IsEntryWord("A");
    assert IngestDoc(Empty, doc[..1]) == GraphState(map["A" := map[]], ["A"]);
    AddB();
  }

  lemma AddD()
    ensures Added(GraphState(AB.nodes["C" := map[]], ["A", "C"]), "d", Some("C")) == TwoGraph
  {
    assert !Words.IsEntryWord("d");
    var inserted := Inserted(GraphState(AB.nodes["C" := map[]], ["A", "C"]), "d");
    assert inserted == GraphState(AB.nodes["C" := map[]]["d" := map[]], ["A", "C"]);
    assert Strengthened(map[], "d") == map["d" := 1];
  }

  lemma SecondOfTwo()
    ensures IngestDoc(AB, ["C", "d"]) == TwoGraph
  {
    var doc := ["C", "d"];
    assert doc[..1] == ["C"] && doc[..1][..0] == [];
    assert Words.IsEntryWord("C");
    assert IngestDoc(AB, doc[..1]) == GraphState(AB.nodes["C" := map[]], ["A", "C"]);
    AddD();
  }

  /** Two documents "A b." and "C d": each capitalised word is an entry word,
      and "b." and "d" end without successors. */
  lemma TwoDocuments()
    ensures Ingest(Empty, TwoDocs) == TwoGraph
  {
    FirstOfTwo();
    SecondOfTwo();
    assert TwoDocs[..1][..0] == [] && TwoDocs[..1] == [["A", "b."]];
    assert TwoDocs[..2][..1] == TwoDocs[..1] && TwoDocs[..2] == TwoDocs;
  }

  // Every draw gives the lowest number of its range.
  const LowestDraws: Rng := (i: nat, n: int) => 1

  lemma LowestDrawsInRange()
    ensures InRange(LowestDraws)
  {
  }

  /** On TwoGraph with every draw the lowest, one walk with at least one step
      of fuel is "A b.": the first draw picks the entry word "A", whose only
      successor "b." ends the walk, so the walk neither dead-ends nor runs out
      of fuel. */
  lemma FirstEntryWordWalk(fuel: nat, r: Result<seq<string>, WalkError>, walks: seq<seq<string>>)
    requires fuel >= 1 && Generated(TwoGraph, 1, LowestDraws, fuel, r, walks)
    ensures r.Success? && walks == [["A", "b."]]
  {
    assert r != Failure(NoEntryWords);
    assert |walks| == 1;
    var w := walks[0];
    assert WalkTaken(TwoGraph, LowestDraws, walks, 0);
    assert walks[..0] == [];
    assert w[0] == "A" && !Words.IsTerminal("A");
    assert EdgesOf(TwoGraph, "A") == map["b." := 1] && "b." in EdgesOf(TwoGraph, "A");
    if |w| == 1 {
      assert false;
    }
    assert w[1] in EdgesOf(TwoGraph, "A");
    assert w == ["A", "b."];
  }

  lemma JoinAB()
    ensures Words.Join(["A", "b."]) == "A b."
  {
    var w := ["A", "b."];
    assert w[1..] == ["b."];
    assert Words.Join(w) == "A" + " " + "b.";
  }

  /** The tweet of that walk: one call for one tweet gives "A b.". */
  lemma FirstEntryWordTweet(fuel: nat, r: Result<seq<string>, WalkError>, walks: seq<seq<string>>)
    requires fuel >= 1 && Generated(TwoGraph, 1, LowestDraws, fuel, r, walks)
    ensures r == Success(["A b."])
  {
    FirstEntryWordWalk(fuel, r, walks);
    JoinAB();
    assert JoinEach(walks) == [Words.Join(["A", "b."])];
  }
}
