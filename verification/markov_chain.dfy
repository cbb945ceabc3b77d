/** The generator's state and loops as the Rust code has them: nodes whose
    edge map and running sum are updated in place, a graph that owns them,
    and the loops that ingest documents, choose a successor and walk to a
    terminal word. Each is proved against the functions of GraphModel and
    Weights. */
module Markov {
  import opened Wrappers
  import opened Words
  import opened Weights
  import opened GraphModel
  import opened Walks

  /** Why `Node::next` gives no successor: `gen_range(1..=sum)` on an empty
      range, or the panic after the loop when the weights fall short of the
      sum. */
  datatype NextError = EmptyRange | WeightsDoNotMatchSum

  class Node {
    var edges: map<string, int>
    var sum: int

    /** The word whose node this is. */
    ghost const owner: string

    /** The running sum is the total of the weights, all of which are positive. */
    ghost predicate Valid()
      reads this
    {
      PositiveWeights(edges) && sum == Total(edges)
    }

    constructor (ghost owner: string)
      ensures Valid() && edges == map[] && sum == 0 && this.owner == owner
    {
      this.owner := owner;
      edges := map[];
      sum := 0;
    }

    /** `Node::strengthen_edge`: the edge to `next` gains one (starting from 0
        when absent), every other edge keeps its weight, and the sum grows by
        one, so a valid node stays valid. */
    method StrengthenEdge(next: string)
      modifies this
      ensures edges == Strengthened(old(edges), next)
      ensures sum == old(sum) + 1
      ensures old(Valid()) ==> Valid()
    {
      var weight := if next in edges then edges[next] else 0;
      TotalUpdate(edges, next, weight + 1);
      edges := edges[next := weight + 1];
      sum := sum + 1;
    }

    /** The order in which iterating the edge map visits the edges: every
        edge once, in an order that is not specified. */
    method IterationOrder() returns (order: seq<string>)
      ensures Enumerates(order, edges)
    {
      order := [];
      var rest := edges.Keys;
      while rest != {}
        invariant rest <= edges.Keys
        invariant Distinct(order)
        invariant forall k :: k in order ==> k in edges && k !in rest
        invariant forall k :: k in edges ==> k in order || k in rest
        decreases rest
      {
        var k :| k in rest;
        order := order + [k];
        rest := rest - {k};
      }
    }

    /** `Node::next` with the edges visited in `order` and the number drawn
        from `1..=sum` given as `draw`: the successor chosen by subtracting
        weights in order (Pick). On a valid node it fails exactly when the
        sum is 0, and never with the weight mismatch. */
    method Next(order: seq<string>, draw: int) returns (r: Result<string, NextError>)
      requires Enumerates(order, edges)
      requires sum >= 1 ==> 1 <= draw <= sum
      ensures sum < 1 ==> r == Failure(EmptyRange)
      ensures sum >= 1 ==> (r.Success? <==> Pick(edges, order, draw).Some?)
      ensures sum >= 1 && r.Success? ==> Pick(edges, order, draw) == Some(r.value)
      ensures sum >= 1 && r.Failure? ==> r.error == WeightsDoNotMatchSum
      ensures r.Success? ==> r.value in edges
      ensures Valid() ==> (r.Success? <==> sum >= 1)
    {
      if sum < 1 {
        return Failure(EmptyRange);
      }
      PickFromTotal(edges, order, draw);
      assert Valid() ==> Pick(edges, order, draw).Some?;
      var picked := Scan(order, draw);
      if picked.None? {
        return Failure(WeightsDoNotMatchSum);
      }
      return Success(picked.value);
    }

    /** The loop of `Node::next`: subtract each edge's weight from the drawn
        number, in iteration order, and stop at the first edge that brings
        it to zero or below. */
    method Scan(order: seq<string>, draw: int) returns (picked: Option<string>)
      requires forall k :: k in order ==> k in edges
      ensures picked == Pick(edges, order, draw)
    {
      var number := draw;
      var i := 0;
      while i < |order|
        invariant 0 <= i <= |order|
        invariant Pick(edges, order, draw) == Pick(edges, order[i..], number)
      {
        assert order[i..][1..] == order[i + 1..];
        assert Weight(edges, order[i]) == edges[order[i]];
        number := number - edges[order[i]];
        if number <= 0 {
          return Some(order[i]);
        }
        i := i + 1;
      }
      return None;
    }
  }

  class Graph {
    var nodes: map<string, Node>
    var entryWords: seq<string>

    /** The graph as a value: every node's edge map, and the entry words. */
    ghost var state: GraphState

    /** `state` mirrors the nodes and the entry words, each word owns its own
        node, and every node is valid. The graph invariant Inv is kept apart:
        it is a property of `state`, preserved by Added (AddedKeepsInv). */
    ghost predicate Valid()
      reads this, nodes.Values
    {
      && state.entryWords == entryWords
      && state.nodes.Keys == nodes.Keys
      && (forall w :: w in nodes ==> nodes[w].edges == state.nodes[w] && nodes[w].Valid())
      && (forall w :: w in nodes ==> nodes[w].owner == w)
    }

    constructor ()
      ensures Valid() && nodes == map[] && state == Empty
    {
      nodes := map[];
      entryWords := [];
      state := Empty;
    }

    /** `Graph::add`: the graph changes as Added says and stays valid; the
        nodes already there stay the same objects and a new word gets a new
        node. */
    method Add(word: string, last: Option<string>)
      requires Valid()
      requires last.Some? ==> last.value in nodes || last.value == word
      modifies this, nodes.Values
      ensures Valid()
      ensures state == Added(old(state), word, last)
      ensures nodes.Keys == old(nodes.Keys) + {word}
      ensures forall w :: w in old(nodes) ==> nodes[w] == old(nodes[w])
      ensures word !in old(nodes) ==> fresh(nodes[word])
      ensures forall n :: n in nodes.Values ==> n in old(nodes.Values) || fresh(n)
    {
      Insert(word);
      if last.Some? {
        Link(last.value, word);
      }
    }

    /** The insertion half of `Graph::add`: a new word gets a fresh node with no
        edges and, if capitalised, a place in the entry-word list. */
    method Insert(word: string)
      requires Valid()
      modifies this
      ensures state == Inserted(old(state), word)
      ensures nodes.Keys == old(nodes.Keys) + {word}
      ensures forall w :: w in old(nodes) ==> nodes[w] == old(nodes[w])
      ensures word !in old(nodes) ==> fresh(nodes[word])
      ensures Valid()
    {
      if word !in nodes {
        ghost var oldNodes := nodes;
        var node := new Node(word);
        nodes := nodes[word := node];
        if IsEntryWord(word) {
          entryWords := entryWords + [word];
        }
        state := Inserted(state, word);
        forall w | w in nodes
          ensures nodes[w].edges == state.nodes[w] && nodes[w].Valid()
        {
          if w != word {
            assert nodes[w] == oldNodes[w];
          }
        }
      }
    }

    /** The linking half of `Graph::add`: the node of `last` strengthens its edge
        to `word`; no other node changes. */
    method Link(last: string, word: string)
      requires Valid()
      requires last in nodes && word in nodes
      modifies this, nodes[last]
      ensures state == Linked(old(state), last, word)
      ensures nodes == old(nodes) && entryWords == old(entryWords)
      ensures Valid()
    {
      var lastNode := nodes[last];
      lastNode.StrengthenEdge(word);
      state := Linked(state, last, word);
      forall w | w in nodes
        ensures nodes[w].edges == state.nodes[w] && nodes[w].Valid()
      {
        if w != last {
          assert nodes[w] != lastNode;
        }
      }
    }

    /** `Graph::random_entry_word`: the entry word at the position the draw
        selects, each position equally likely; `choose` on an empty list
        gives nothing to unwrap. */
    method RandomEntryWord(rng: Rng, i: nat) returns (r: Result<string, WalkError>)
      requires Valid() && InRange(rng)
      ensures r.Failure? <==> entryWords == []
      ensures r.Failure? ==> r.error == NoEntryWords
      ensures r.Success? ==> r.value == entryWords[rng(i, |entryWords|) - 1]
    {
      if |entryWords| == 0 {
        return Failure(NoEntryWords);
      }
      var draw := rng(i, |entryWords|);
      return Success(entryWords[draw - 1]);
    }

    /** `Graph::generate_tweet`, with the walk cut off after `fuel` steps.
        It starts at the entry word the draw `i` selects, moves along an edge
        chosen by the next draw at every step, stops at the first terminal
        word and joins the words with single spaces. Without entry words it
        fails at once; at a non-terminal word with no edges it fails. */
    method GenerateTweet(rng: Rng, i: nat, fuel: nat) returns (r: Result<string, WalkError>, words: seq<string>, next: nat)
      requires Valid() && Inv(state) && InRange(rng)
      ensures r == Failure(NoEntryWords) <==> entryWords == []
      ensures entryWords == [] ==> words == []
      ensures entryWords != [] ==> IsWalk(state, words) && words[0] == entryWords[rng(i, |entryWords|) - 1]
      ensures DrawsFollowed(state, words, rng, i)
      ensures r.Success? ==> IsTerminal(words[|words| - 1]) && r.value == Join(words)
      ensures r == Failure(DeadEnd) ==> !IsTerminal(words[|words| - 1]) && EdgesOf(state, words[|words| - 1]) == map[]
      ensures r == Failure(OutOfFuel) ==> !IsTerminal(words[|words| - 1]) && |words| == fuel + 1
      ensures next == i + |words|
    {
      var entry := RandomEntryWord(rng, i);
      if entry.Failure? {
        return entry, [], i;
      }
      var current := entry.value;
      assert current in state.entryWords;
      words := [current];
      next := i + 1;
      var steps := 0;
      while !IsTerminal(current)
        invariant |words| == steps + 1 && steps <= fuel
        invariant current == words[|words| - 1] && current in nodes
        invariant next == i + |words|
        invariant words[0] == entry.value
        invariant IsWalk(state, words)
        invariant DrawsFollowed(state, words, rng, i)
        decreases fuel - steps
      {
        if steps == fuel {
          return Failure(OutOfFuel), words, next;
        }
        var node := nodes[current];
        assert node.Valid() && EdgesOf(state, current) == node.edges;
        var order := node.IterationOrder();
        var draw := rng(next, node.sum);
        var chosen := node.Next(order, draw);
        if chosen.Failure? {
          TotalPositive(node.edges);
          return Failure(DeadEnd), words, next;
        }
        WalkExtends(state, words, chosen.value);
        DrawsExtend(state, words, rng, i, order, chosen.value);
        current := chosen.value;
        words := words + [current];
        next := next + 1;
        steps := steps + 1;
      }
      r := Success(Join(words));
    }
  }

  /** The generator: a graph built from the documents, and the tweets
      walked over it. */
  class MarkovChain {
    var graph: Graph

    /** The graph is valid and satisfies the graph invariant. */
    ghost predicate Valid()
      reads this, graph, graph.nodes.Values
    {
      graph.Valid() && Inv(graph.state)
    }

    constructor ()
      ensures Valid() && fresh(graph) && graph.state == Empty
    {
      graph := new Graph();
    }

    /** `MarkovChain::parse_in`, each document given as its whitespace-
        separated tokens: every token is added to the graph, linked from the
        token before it in the same document. */
    method ParseIn(docs: seq<seq<string>>)
      requires Valid()
      modifies graph, graph.nodes.Values
      ensures Valid()
      ensures graph.state == Ingest(old(graph.state), docs)
    {
      IngestKeepsInv(graph.state, docs);
      var d := 0;
      while d < |docs|
        invariant 0 <= d <= |docs|
        invariant graph.Valid()
        invariant graph.state == Ingest(old(graph.state), docs[..d])
        invariant forall n :: n in graph.nodes.Values ==> n in old(graph.nodes.Values) || fresh(n)
      {
        ParseDocument(docs[d]);
        assert docs[..d + 1][..d] == docs[..d];
        d := d + 1;
      }
      assert docs[..|docs|] == docs;
    }

    /** The inner loop of `parse_in` over one document, starting with no
        `last_word`. */
    method ParseDocument(doc: seq<string>)
      requires graph.Valid()
      modifies graph, graph.nodes.Values
      ensures graph.Valid()
      ensures graph.state == IngestDoc(old(graph.state), doc)
      ensures forall n :: n in graph.nodes.Values ==> n in old(graph.nodes.Values) || fresh(n)
    {
      ghost var start := graph.state;
      var last: Option<string> := None;
      var k := 0;
      while k < |doc|
        invariant 0 <= k <= |doc|
        invariant graph.Valid()
        invariant graph.state == IngestDoc(start, doc[..k])
        invariant last == if k == 0 then None else Some(doc[k - 1])
        invariant last.Some? ==> last.value in graph.nodes
        invariant forall n :: n in graph.nodes.Values ==> n in old(graph.nodes.Values) || fresh(n)
      {
        ghost var before := graph.state;
        graph.Add(doc[k], last);
        IngestDocStep(start, doc, k);
        assert graph.state == Added(before, doc[k], last);
        last := Some(doc[k]);
        k := k + 1;
      }
      assert doc[..|doc|] == doc;
    }

    /** `MarkovChain::create_tweets`: ingest the documents, then generate
        `number` tweets, none when `number` is not positive. The first walk
        that fails stops the whole call, as the `unwrap`s in the source
        would. Started on a new generator, it fails for want of entry words
        exactly when no token of the documents is capitalised. `walks` are
        the walks taken, in order, each from the draw after the previous
        one's. */
    method CreateTweets(docs: seq<seq<string>>, number: int, rng: Rng, fuel: nat)
        returns (r: Result<seq<string>, WalkError>, ghost walks: seq<seq<string>>)
      requires Valid() && InRange(rng)
      modifies graph, graph.nodes.Values
      ensures Valid()
      ensures graph.state == Ingest(old(graph.state), docs)
      ensures r.Success? ==> |r.value| == (if number > 0 then number else 0)
      ensures r.Success? ==> forall t :: t in r.value ==> IsTweet(graph.state, t)
      ensures r.Failure? ==> number >= 1
      ensures r == Failure(NoEntryWords) <==> number >= 1 && graph.entryWords == []
      ensures r == Failure(DeadEnd) ==>
        exists w :: IsWalk(graph.state, w) && !IsTerminal(w[|w| - 1]) && EdgesOf(graph.state, w[|w| - 1]) == map[]
      ensures r == Failure(OutOfFuel) ==>
        exists w :: IsWalk(graph.state, w) && !IsTerminal(w[|w| - 1]) && |w| == fuel + 1
      ensures old(graph.state) == Empty ==>
        (r == Failure(NoEntryWords) <==> number >= 1 && forall t :: InSomeDocument(docs, t) ==> !IsEntryWord(t))
      ensures Generated(graph.state, number, rng, fuel, r, walks)
    {
      ParseIn(docs);
      if old(graph.state) == Empty {
        IngestedEntryWords(docs);
        var entries := graph.entryWords;
        if entries != [] {
          assert entries[0] in entries;
        }
      }
      r, walks := GenerateTweets(number, rng, fuel);
      GeneratedWalks(graph.state, number, rng, fuel, r, walks);
    }

    /** The loop `for _ in 0..number` of `MarkovChain::create_tweets` over
        the built graph: the tweets are the joined walks, each walk starting
        at the draw after the last one of the walk before it. The first walk
        that fails ends the loop with its failure. */
    method GenerateTweets(number: int, rng: Rng, fuel: nat)
        returns (r: Result<seq<string>, WalkError>, ghost walks: seq<seq<string>>)
      requires Valid() && InRange(rng)
      ensures r.Success? ==> |r.value| == (if number > 0 then number else 0)
      ensures r == Failure(NoEntryWords) <==> number >= 1 && graph.entryWords == []
      ensures Generated(graph.state, number, rng, fuel, r, walks)
    {
      ghost var g := graph.state;
      var tweets: seq<string> := [];
      var draws := 0;
      walks := [];
      while |tweets| < number
        invariant |tweets| <= number || tweets == []
        invariant graph.state == g
        invariant draws == DrawsUsed(walks)
        invariant Taken(g, rng, walks)
        invariant AllEndTerminal(walks)
        invariant tweets == JoinEach(walks)
        invariant tweets != [] ==> g.entryWords != []
        decreases number - |tweets|
      {
        var tweet, words, next := graph.GenerateTweet(rng, draws, fuel);
        assert tweet != Failure(NoEntryWords) ==> WalkFrom(g, words, rng, draws);
        if tweet.Failure? {
          if tweet.error == NoEntryWords {
            GeneratedNoEntryWords(g, number, rng, fuel);
          } else {
            GeneratedWalkFailed(g, number, rng, fuel, tweet.error, walks, words);
            walks := walks + [words];
          }
          return Failure(tweet.error), walks;
        }
        WalksExtend(g, rng, walks, words);
        AllEndTerminalExtend(walks, words);
        JoinEachExtend(walks, words);
        walks := walks + [words];
        tweets := tweets + [tweet.value];
        draws := next;
      }
      GeneratedSuccess(g, number, rng, fuel, walks);
      return Success(tweets), walks;
    }
  }
}
