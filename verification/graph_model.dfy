/** The word graph as a value, and the effect of `Graph::add` and of the
    ingestion loop of `MarkovChain::parse_in` on it. The classes in
    markov_chain.dfy are proved to change their state exactly as these
    functions say; the properties of graph construction are proved here. */
module GraphModel {
  import opened Wrappers
  import opened Words
  import opened Weights

  /** Every node's edge map, keyed by its word, and the entry-word list. */
  datatype GraphState = GraphState(nodes: map<string, map<string, int>>, entryWords: seq<string>)

  /** The graph as `Graph::new` makes it. */
  const Empty := GraphState(map[], [])

  /** The edge map of `w`, empty when `w` is not a node. */
  function EdgesOf(g: GraphState, w: string): map<string, int> {
    if w in g.nodes then g.nodes[w] else map[]
  }

  /** The weight of the edge from `a` to `b`, 0 when there is none. */
  function EdgeWeight(g: GraphState, a: string, b: string): int {
    Weight(EdgesOf(g, a), b)
  }

  /** The graph's invariant: stored weights are positive, every edge leads to
      a node, and the entry-word list holds, once each, exactly the nodes whose
      word starts with an ASCII capital. */
  predicate Inv(g: GraphState) {
    && (forall w :: w in g.nodes ==> PositiveWeights(g.nodes[w]))
    && (forall w, t :: w in g.nodes && t in g.nodes[w] ==> t in g.nodes)
    && Distinct(g.entryWords)
    && (forall w :: w in g.entryWords ==> w in g.nodes && IsEntryWord(w))
    && (forall w :: w in g.nodes && IsEntryWord(w) ==> w in g.entryWords)
  }

  /** `Node::strengthen_edge(next)` on an edge map. */
  function Strengthened(edges: map<string, int>, next: string): (r: map<string, int>)
    ensures r.Keys == edges.Keys + {next}
    ensures Weight(r, next) == Weight(edges, next) + 1
    ensures forall t :: t != next ==> Weight(r, t) == Weight(edges, t)
  {
    edges[next := Weight(edges, next) + 1]
  }

  /** The first half of `Graph::add`: a new word becomes a node with no
      edges and, when it starts with a capital, an entry word. */
  function Inserted(g: GraphState, word: string): (r: GraphState)
    ensures r.nodes.Keys == g.nodes.Keys + {word}
  {
    if word in g.nodes then g
    else GraphState(g.nodes[word := map[]],
                    if IsEntryWord(word) then g.entryWords + [word] else g.entryWords)
  }

  /** The second half of `Graph::add`: the edge from `last` to `word` is
      strengthened. */
  function Linked(g: GraphState, last: string, word: string): (r: GraphState)
    requires last in g.nodes
    ensures r.nodes.Keys == g.nodes.Keys
  {
    g.(nodes := g.nodes[last := Strengthened(g.nodes[last], word)])
  }

  /** `Graph::add(word, last)`. The `unwrap` of `last`'s node is a demand on
      the caller: `last`, when present, is a node once `word` is inserted,
      that is, already a node or `word` itself. */
  function Added(g: GraphState, word: string, last: Option<string>): (r: GraphState)
    requires last.Some? ==> last.value in g.nodes || last.value == word
    ensures r.nodes.Keys == g.nodes.Keys + {word}
  {
    match last
    case None => Inserted(g, word)
    case Some(l) => Linked(Inserted(g, word), l, word)
  }

  /** What one `add` changes: `word` becomes a node with no edges if it was
      not one (with just the edge to itself when it is also `last`); the
      edge from `last` to `word` gains one and no other edge changes; the
      nodes other than `last` are untouched; the entry-word list gains
      `word` exactly when `word` is new and starts with a capital. */
  lemma {:induction false} AddedEffect(g: GraphState, word: string, last: Option<string>)
    requires last.Some? ==> last.value in g.nodes || last.value == word
    ensures word !in g.nodes && last != Some(word) ==> Added(g, word, last).nodes[word] == map[]
    ensures word !in g.nodes && last == Some(word) ==> Added(g, word, last).nodes[word] == map[word := 1]
    ensures forall w :: w in g.nodes && last != Some(w) ==> Added(g, word, last).nodes[w] == g.nodes[w]
    ensures forall a, b :: EdgeWeight(Added(g, word, last), a, b)
                           == EdgeWeight(g, a, b) + (if last == Some(a) && b == word then 1 else 0)
    ensures Added(g, word, last).entryWords
            == if word !in g.nodes && IsEntryWord(word) then g.entryWords + [word] else g.entryWords
  {
  }

  lemma {:induction false} InsertedKeepsInv(g: GraphState, word: string)
    requires Inv(g)
    ensures Inv(Inserted(g, word))
  {
  }

  lemma {:induction false} LinkedKeepsInv(g: GraphState, last: string, word: string)
    requires Inv(g)
    requires last in g.nodes && word in g.nodes
    ensures Inv(Linked(g, last, word))
  {
  }

  /** Every `add` keeps the invariant. */
  lemma {:induction false} AddedKeepsInv(g: GraphState, word: string, last: Option<string>)
    requires Inv(g)
    requires last.Some? ==> last.value in g.nodes || last.value == word
    ensures Inv(Added(g, word, last))
  {
    InsertedKeepsInv(g, word);
    if last.Some? {
      LinkedKeepsInv(Inserted(g, word), last.value, word);
    }
  }

  /** The tokens of one document fed to `add` in order, each with the token
      before it as `last` and the first with none. */
  function IngestDoc(g: GraphState, doc: seq<string>): (r: GraphState)
    ensures g.nodes.Keys <= r.nodes.Keys
    ensures forall i :: 0 <= i < |doc| ==> doc[i] in r.nodes
    decreases |doc|
  {
    if |doc| == 0 then g
    else
      var n := |doc|;
      var before := IngestDoc(g, doc[..n - 1]);
      assert n >= 2 ==> doc[..n - 1][n - 2] == doc[n - 2];
      Added(before, doc[n - 1], if n == 1 then None else Some(doc[n - 2]))
  }

  /** One more token of the document: the graph of the longer prefix adds
      that token after the one before it. */
  lemma {:induction false} IngestDocStep(g: GraphState, doc: seq<string>, k: nat)
    requires k < |doc|
    ensures IngestDoc(g, doc[..k + 1]) == Added(IngestDoc(g, doc[..k]), doc[k], if k == 0 then None else Some(doc[k - 1]))
  {
    assert doc[..k + 1][..k] == doc[..k];
    assert k >= 1 ==> doc[..k + 1][k - 1] == doc[k - 1];
  }

  /** All documents, one after another, each starting afresh with no `last`. */
  function Ingest(g: GraphState, docs: seq<seq<string>>): (r: GraphState)
    ensures g.nodes.Keys <= r.nodes.Keys
    decreases |docs|
  {
    if |docs| == 0 then g
    else IngestDoc(Ingest(g, docs[..|docs| - 1]), docs[|docs| - 1])
  }

  lemma {:induction false} IngestDocNodes(g: GraphState, doc: seq<string>)
    ensures forall t :: t in IngestDoc(g, doc).nodes <==> t in g.nodes || t in doc
    decreases |doc|
  {
    var n := |doc|;
    if n > 0 {
      IngestDocNodes(g, doc[..n - 1]);
      assert doc == doc[..n - 1] + [doc[n - 1]];
    }
  }

  /** Ingestion adds a node for every token of every document, and no other. */
  lemma {:induction false} IngestNodes(g: GraphState, docs: seq<seq<string>>)
    ensures forall t :: t in Ingest(g, docs).nodes <==> t in g.nodes || InSomeDocument(docs, t)
    decreases |docs|
  {
    var n := |docs|;
    if n > 0 {
      var front := docs[..n - 1];
      IngestNodes(g, front);
      IngestDocNodes(Ingest(g, front), docs[n - 1]);
      forall t ensures InSomeDocument(docs, t) <==> InSomeDocument(front, t) || t in docs[n - 1] {
        if InSomeDocument(front, t) {
          var i :| 0 <= i < |front| && t in front[i];
          assert docs[i] == front[i];
        }
      }
    }
  }

  /** `t` is a token of one of the documents. */
  predicate InSomeDocument(docs: seq<seq<string>>, t: string) {
    exists i :: 0 <= i < |docs| && t in docs[i]
  }

  lemma {:induction false} IngestDocKeepsInv(g: GraphState, doc: seq<string>)
    requires Inv(g)
    ensures Inv(IngestDoc(g, doc))
    decreases |doc|
  {
    var n := |doc|;
    if n > 0 {
      IngestDocKeepsInv(g, doc[..n - 1]);
      AddedKeepsInv(IngestDoc(g, doc[..n - 1]), doc[n - 1], if n == 1 then None else Some(doc[n - 2]));
    }
  }

  /** Ingestion keeps the invariant. */
  lemma {:induction false} IngestKeepsInv(g: GraphState, docs: seq<seq<string>>)
    requires Inv(g)
    ensures Inv(Ingest(g, docs))
    decreases |docs|
  {
    var n := |docs|;
    if n > 0 {
      IngestKeepsInv(g, docs[..n - 1]);
      IngestDocKeepsInv(Ingest(g, docs[..n - 1]), docs[n - 1]);
    }
  }

  /** How often `b` immediately follows `a` in one document. */
  function Pairs(doc: seq<string>, a: string, b: string): nat
    decreases |doc|
  {
    if |doc| < 2 then 0
    else Pairs(doc[..|doc| - 1], a, b) + (if doc[|doc| - 2] == a && doc[|doc| - 1] == b then 1 else 0)
  }

  /** How often `b` immediately follows `a` inside some document. */
  function PairCount(docs: seq<seq<string>>, a: string, b: string): nat
    decreases |docs|
  {
    if |docs| == 0 then 0 else PairCount(docs[..|docs| - 1], a, b) + Pairs(docs[|docs| - 1], a, b)
  }

  lemma {:induction false} IngestDocWeights(g: GraphState, doc: seq<string>, a: string, b: string)
    ensures EdgeWeight(IngestDoc(g, doc), a, b) == EdgeWeight(g, a, b) + Pairs(doc, a, b)
    decreases |doc|
  {
    var n := |doc|;
    if n > 0 {
      IngestDocWeights(g, doc[..n - 1], a, b);
      AddedEffect(IngestDoc(g, doc[..n - 1]), doc[n - 1], if n == 1 then None else Some(doc[n - 2]));
      if n >= 2 {
        assert doc[..n - 1][..n - 2] == doc[..n - 2];
      }
    }
  }

  /** The weight of every edge after ingestion grows by the number of times
      its target immediately follows its source inside one document. */
  lemma {:induction false} IngestWeights(g: GraphState, docs: seq<seq<string>>, a: string, b: string)
    ensures EdgeWeight(Ingest(g, docs), a, b) == EdgeWeight(g, a, b) + PairCount(docs, a, b)
    decreases |docs|
  {
    var n := |docs|;
    if n > 0 {
      IngestWeights(g, docs[..n - 1], a, b);
      IngestDocWeights(Ingest(g, docs[..n - 1]), docs[n - 1], a, b);
    }
  }

  /** `b` follows `a` somewhere in a document exactly when the pair is counted. */
  lemma {:induction false} PairsPositive(doc: seq<string>, a: string, b: string)
    ensures Pairs(doc, a, b) > 0 <==> exists j :: 0 <= j < |doc| - 1 && doc[j] == a && doc[j + 1] == b
    decreases |doc|
  {
    var n := |doc|;
    if n >= 2 {
      var front := doc[..n - 1];
      PairsPositive(front, a, b);
      if exists j :: 0 <= j < n - 1 && doc[j] == a && doc[j + 1] == b {
        var j :| 0 <= j < n - 1 && doc[j] == a && doc[j + 1] == b;
        if j < n - 2 {
          assert front[j] == a && front[j + 1] == b;
        }
      }
      if exists j :: 0 <= j < n - 2 && front[j] == a && front[j + 1] == b {
        var j :| 0 <= j < n - 2 && front[j] == a && front[j + 1] == b;
        assert doc[j] == a && doc[j + 1] == b;
      }
    }
  }

  lemma {:induction false} PairCountPositive(docs: seq<seq<string>>, a: string, b: string)
    ensures PairCount(docs, a, b) > 0 <==> Adjacent(docs, a, b)
    decreases |docs|
  {
    var n := |docs|;
    if n > 0 {
      var front := docs[..n - 1];
      PairCountPositive(front, a, b);
      PairsPositive(docs[n - 1], a, b);
      if Adjacent(docs, a, b) {
        var i, j :| 0 <= i < |docs| && 0 <= j < |docs[i]| - 1 && docs[i][j] == a && docs[i][j + 1] == b;
        if i < n - 1 {
          assert front[i] == docs[i];
        }
      }
      if Adjacent(front, a, b) {
        var i, j :| 0 <= i < |front| && 0 <= j < |front[i]| - 1 && front[i][j] == a && front[i][j + 1] == b;
        assert docs[i] == front[i];
      }
    }
  }

  /** `b` immediately follows `a` inside one of the documents. */
  predicate Adjacent(docs: seq<seq<string>>, a: string, b: string) {
    exists i, j :: 0 <= i < |docs| && 0 <= j < |docs[i]| - 1 && docs[i][j] == a && docs[i][j + 1] == b
  }

  /** Ingesting documents into a fresh graph: the nodes are the tokens, each
      edge's weight is how often its target immediately follows its source
      inside one document, and an edge A -> B exists exactly when B follows A
      inside some document. In particular no edge joins the last token of one
      document to the first of the next unless that pair also occurs inside a
      document. */
  lemma {:induction false} IngestedGraph(docs: seq<seq<string>>)
    ensures Inv(Ingest(Empty, docs))
    ensures forall t :: t in Ingest(Empty, docs).nodes <==> InSomeDocument(docs, t)
    ensures forall a, b :: EdgeWeight(Ingest(Empty, docs), a, b) == PairCount(docs, a, b)
    ensures forall a, b :: (a in Ingest(Empty, docs).nodes && b in Ingest(Empty, docs).nodes[a]) <==> Adjacent(docs, a, b)
  {
    var r := Ingest(Empty, docs);
    IngestKeepsInv(Empty, docs);
    IngestNodes(Empty, docs);
    forall a, b ensures EdgeWeight(r, a, b) == PairCount(docs, a, b) {
      IngestWeights(Empty, docs, a, b);
    }
    forall a, b ensures (a in r.nodes && b in r.nodes[a]) <==> Adjacent(docs, a, b) {
      IngestWeights(Empty, docs, a, b);
      PairCountPositive(docs, a, b);
    }
  }

  /** The entry words after ingestion into a fresh graph: each capitalised
      token once, and nothing else. */
  lemma {:induction false} IngestedEntryWords(docs: seq<seq<string>>)
    ensures Distinct(Ingest(Empty, docs).entryWords)
    ensures forall w :: w in Ingest(Empty, docs).entryWords <==> IsEntryWord(w) && InSomeDocument(docs, w)
  {
    IngestedGraph(docs);
  }

  /** The running sums of all nodes, each its edges' total. */
  ghost function NodeSums(nodes: map<string, map<string, int>>): map<string, int> {
    map w | w in nodes :: Total(nodes[w])
  }

  /** The total of all node sums. */
  ghost function TotalWeight(g: GraphState): int {
    Total(NodeSums(g.nodes))
  }

  lemma {:induction false} NodeSumsUpdate(nodes: map<string, map<string, int>>, w: string, edges: map<string, int>)
    ensures NodeSums(nodes[w := edges]) == NodeSums(nodes)[w := Total(edges)]
  {
  }

  /** An `add` with a previous word adds one to the total of all node sums;
      one without leaves it as it was. */
  lemma {:induction false} AddedTotalWeight(g: GraphState, word: string, last: Option<string>)
    requires last.Some? ==> last.value in g.nodes || last.value == word
    ensures TotalWeight(Added(g, word, last)) == TotalWeight(g) + (if last.Some? then 1 else 0)
  {
    var withWord := if word !in g.nodes then g.nodes[word := map[]] else g.nodes;
    assert Total(NodeSums(withWord)) == Total(NodeSums(g.nodes)) by {
      if word !in g.nodes {
        NodeSumsUpdate(g.nodes, word, map[]);
        TotalUpdate(NodeSums(g.nodes), word, 0);
        assert Total(map[]) == 0;
      }
    }
    if last.Some? {
      var l := last.value;
      var e := withWord[l];
      TotalUpdate(e, word, Weight(e, word) + 1);
      NodeSumsUpdate(withWord, l, Strengthened(e, word));
      TotalUpdate(NodeSums(withWord), l, Total(e) + 1);
      assert Added(g, word, last).nodes == withWord[l := Strengthened(e, word)];
    } else {
      assert Added(g, word, last).nodes == withWord;
    }
  }

  /** The number of neighbouring token pairs inside the documents. */
  function AdjacentPairs(docs: seq<seq<string>>): nat
    decreases |docs|
  {
    if |docs| == 0 then 0
    else
      var doc := docs[|docs| - 1];
      AdjacentPairs(docs[..|docs| - 1]) + (if |doc| == 0 then 0 else |doc| - 1)
  }

  lemma {:induction false} IngestDocTotalWeight(g: GraphState, doc: seq<string>)
    ensures TotalWeight(IngestDoc(g, doc)) == TotalWeight(g) + (if |doc| == 0 then 0 else |doc| - 1)
    decreases |doc|
  {
    var n := |doc|;
    if n > 0 {
      IngestDocTotalWeight(g, doc[..n - 1]);
      AddedTotalWeight(IngestDoc(g, doc[..n - 1]), doc[n - 1], if n == 1 then None else Some(doc[n - 2]));
    }
  }

  lemma {:induction false} IngestTotalWeight(g: GraphState, docs: seq<seq<string>>)
    ensures TotalWeight(Ingest(g, docs)) == TotalWeight(g) + AdjacentPairs(docs)
    decreases |docs|
  {
    var n := |docs|;
    if n > 0 {
      IngestTotalWeight(g, docs[..n - 1]);
      IngestDocTotalWeight(Ingest(g, docs[..n - 1]), docs[n - 1]);
    }
  }

  /** After ingestion into a fresh graph, the node sums add up to the number
      of neighbouring token pairs inside documents: every such pair added one
      transition, and no pair across a document boundary did. */
  lemma {:induction false} IngestedTotalWeight(docs: seq<seq<string>>)
    ensures TotalWeight(Ingest(Empty, docs)) == AdjacentPairs(docs)
  {
    IngestTotalWeight(Empty, docs);
    assert NodeSums(map[]) == map[];
  }

  /** A walk of `Graph::generate_tweet`: it starts at an entry word, every
      word but the last is not terminal, and each word is followed by one of
      its successors. */
  ghost predicate IsWalk(g: GraphState, words: seq<string>) {
    && |words| >= 1
    && words[0] in g.entryWords
    && (forall j :: 0 <= j < |words| - 1 ==> !IsTerminal(words[j]) && words[j + 1] in EdgesOf(g, words[j]))
  }

  /** A walk that has not reached a terminal word goes on along any edge of
      its last word. */
  lemma {:induction false} WalkExtends(g: GraphState, words: seq<string>, w: string)
    requires IsWalk(g, words) && !IsTerminal(words[|words| - 1])
    requires w in EdgesOf(g, words[|words| - 1])
    ensures IsWalk(g, words + [w])
  {
  }

  /** `next` is what `Node::next` picks at `w` for `draw` under some
      iteration order of `w`'s edges. */
  ghost predicate ChosenBy(g: GraphState, w: string, draw: int, next: string) {
    exists order :: Enumerates(order, EdgesOf(g, w)) && Pick(EdgesOf(g, w), order, draw) == Some(next)
  }

  /** A finished tweet: the words of a walk that ends at a terminal word,
      joined with single spaces. */
  ghost predicate IsTweet(g: GraphState, t: string) {
    exists words :: IsWalk(g, words) && IsTerminal(words[|words| - 1]) && t == Join(words)
  }
}
