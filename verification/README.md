# Word-level Markov chain tweet generator

The program reads a directory of text files and builds a weighted word graph:
- every whitespace-separated token becomes a node;
- every token is linked to the token that follows it in the same file, and the link's weight counts how often the pair occurs;
- every token that starts with an ASCII capital letter is remembered as an entry word.

A tweet is a random walk: it starts at a random entry word and moves to a successor chosen with probability proportional to the edge weight. It stops at the first word that ends in a terminal character. The words are joined with single spaces.

The model is split into the following modules.

- `Words` (words.dfy): the two regular expressions as character tests (`IsEntryWord`, `IsTerminal`) and the joining of words with spaces (`Join`). It also has a reference `Split` that undoes `Join`.
- `Weights` (weights.dfy): an edge map and its weights. It holds:
  - `Total`, the sum of the weights;
  - `Enumerates`, an iteration order of a hash map;
  - `Pick`, the subtraction loop of `Node::next` as a function;
  - the proofs that `Pick` selects the first edge whose running weight reaches the draw, and that each edge wins exactly as many of the draws `1..=sum` as its weight.
- `GraphModel` (graph_model.dfy): the graph as a value (`GraphState`). It defines:
  - `Added`, the effect of `Graph::add`;
  - `IngestDoc` and `Ingest`, the ingestion loop of `parse_in`;
  - `IsWalk`, `ChosenBy` and `IsTweet`, the shape of a generated tweet.

  It proves:
  - the graph invariant;
  - that after ingestion an edge exists exactly between tokens adjacent in one document;
  - that each edge's weight is the number of such adjacencies;
  - that the total weight is the number of adjacent pairs.
- `Walks` (walks.dfy): the walks of tweet generation, as values.
  - `DrawsFollowed`: every step of a walk takes the successor that `Node::next` picks for that step's draw.
  - `WalkFrom`: a walk starts at the entry word its first draw selects and then follows its draws.
  - `DrawsUsed`: how many draws a list of walks consumes, one per word.
  - `Generated`: how the tweets of `create_tweets` relate to the walks taken. Each walk starts at the first draw the earlier walks left unused. Every walk except the last ends at a terminal word. On success the tweets are the walks joined by spaces. A failure is the failure of the last walk.
- `Markov` (markov_chain.dfy): the program's own state and loops, as classes.
  - `Node`: fields `edges` and `sum`, updated in place by `StrengthenEdge`.
  - `Graph`: a map from words to `Node` objects and the entry-word list. It has `Add`, `RandomEntryWord` and `GenerateTweet`.
  - `MarkovChain`: `ParseIn`, `GenerateTweets` (the loop of `create_tweets`) and `CreateTweets`.

  Each method is proved against the functions of the modules above. The ghost field `Graph.state` mirrors the objects as a `GraphState`.
- `Scenarios` (scenarios.dfy): three small corpora worked through by the model. For one of them the tweet produced under a fixed sequence of draws is derived.

Inputs the model cannot see are parameters:
- The contents of the files are given as documents. Each document is the sequence of its whitespace-separated tokens.
- The random number generator is a function `rng(i, n)`. It gives the `i`-th draw, a number in `1..=n`.
  - `Node::next` asks for `gen_range(1..=sum)` and gets `rng(i, sum)`.
  - `choose` on the entry words, which draws an index in `0..len`, gets `rng(i, len) - 1`.
  - Every walk consumes one draw per word it visits. `GenerateTweet` returns the index of the next unused draw.
- The order in which a `HashMap` yields its entries is not specified. `Node.IterationOrder` picks an arbitrary order that visits every edge once, and every property of `Next` holds for every such order.

Three behaviours of the code are easy to misread, and the model follows the code in each.
- **Entry words are recorded once.** A capitalised word joins the entry-word list only when it first becomes a node. A word that occurs many times is listed once (`Inv`, `IngestedEntryWords`, `Scenarios.OneDocument`).
- **`|` is a terminal character.** The terminal pattern `.*[!|.|?]$` is one character class, `[!|.|?]`, in which `|` is a literal. So a token ending in `|` ends a tweet, like one ending in `!`, `.` or `?` (`Words.IsTerminalChar`).
- **Sentences inside one file are linked.** Ingestion does not stop at sentence ends. In a single file "The cat sat. The cat ran." the token `sat.` gets an edge to `The` (`Scenarios.OneDocument`). Only the boundary between two files has no edge (`Scenarios.NoEdgeAcrossDocuments`).

The panics of the source are error values:
- `choose` on an empty entry-word list gives `NoEntryWords`;
- `gen_range(1..=0)` on a node with no edges gives `EmptyRange` from `Next`, and `DeadEnd` from the walk;
- the weight-mismatch `panic!` gives `WeightsDoNotMatchSum`. It is proved unreachable on a valid node.

A walk that has not ended after `fuel` steps gives `OutOfFuel`.

## Model

| member | source | states |
|---|---|---|
| Markov.Node.constructor | src/markov_chain.rs:145-150 | A new node has no edges and a sum of 0, so it is valid. |
| Markov.Node.StrengthenEdge | src/markov_chain.rs:139-143 | The edge map becomes `Strengthened(old edges, next)`: the edge to `next` gains one, starting from 0 when absent. The sum grows by one. A valid node, whose sum equals the total of its positive weights, stays valid. |
| GraphModel.Strengthened | src/markov_chain.rs:139-141 | The edge to `next` is present and its weight is one more than before (0 when absent). Every other edge keeps its weight, and no other key appears. |
| Weights.TotalUpdate | src/markov_chain.rs:141-142 | Changing one weight changes the total by exactly the difference. This is why `sum += 1` keeps `sum` equal to the total. |
| Markov.Node.IterationOrder | src/markov_chain.rs:127 | The iteration order of the edge map lists every edge exactly once and nothing else. |
| Markov.Node.Scan | src/markov_chain.rs:127-135 | The loop subtracts weights in iteration order. It returns the first edge that brings the drawn number to 0 or below (`Pick`), or nothing when the weights run out first. |
| Markov.Node.Next | src/markov_chain.rs:124-136 | With no weight (`sum < 1`) it fails with the empty range. Otherwise it succeeds exactly when `Pick` finds an edge, returns that edge, and the only other outcome is the weight-mismatch failure. The result is always an edge of the node. On a valid node it succeeds exactly when `sum >= 1`, so the panic at line 135 cannot happen. |
| Weights.Pick | src/markov_chain.rs:127-135 | It returns the first edge, in iteration order, whose subtraction brings the drawn number to 0 or below, or nothing when the edges run out. A returned edge is always one of the order. |
| Weights.SumAlongIsTotal | src/markov_chain.rs:127-128 | Subtracting every weight in any iteration order removes exactly the total. |
| Weights.PickInRange | src/markov_chain.rs:125-133 | A draw in `1..=` the sum of the weights along the order always stops the loop at an edge of the order. |
| Weights.PickFromTotal | src/markov_chain.rs:125-135 | A draw in `1..=Total` under any iteration order picks an edge, so the loop never falls through to the panic. |
| Weights.TotalPositive | src/markov_chain.rs:125 | With positive weights the total is at least the number of edges, and it is 0 exactly when there are no edges. So `gen_range(1..=sum)` has an empty range exactly on a node without successors. |
| Weights.PickIsFirstToReach | src/markov_chain.rs:127-132 | The `i`-th edge of the order is picked if and only if the weights before it sum to less than the draw and the weights up to and including it reach the draw. |
| Weights.HitsMatchWeight | src/markov_chain.rs:124-133 | Over all draws from 1 to the sum along the order, an edge of the order is picked exactly as many times as its weight. An edge outside the order is never picked. |
| Weights.EdgeChosenByWeightDraws | src/markov_chain.rs:124-133 | For a node's edges in any iteration order, each edge wins exactly `weight(e)` of the `sum` equally likely draws. A successor is therefore chosen with probability proportional to its weight. |
| Markov.Graph.constructor | src/markov_chain.rs:105-111 | A new graph has no nodes and no entry words, and is valid. |
| Markov.Graph.Insert | src/markov_chain.rs:91-97 | A word that is not yet a node gets a fresh node with no edges and, if capitalised, a place at the end of the entry-word list. An existing word changes nothing. Every other node is kept. |
| Markov.Graph.Link | src/markov_chain.rs:99-102 | Only the node of `last` changes: its edge to `word` is strengthened. The node map and the entry words stay the same. |
| Markov.Graph.Add | src/markov_chain.rs:88-103 | It requires only what the `unwrap` at line 100 needs: `last` is a node, or is `word` itself, which line 92 has just inserted. The graph's state becomes `Added(old state, word, last)`. The node set gains exactly `word`, and the nodes already there stay the same objects. A new word gets a fresh node, and the graph stays valid. |
| GraphModel.Inserted | src/markov_chain.rs:91-97 | The node set becomes the old one plus `word`. |
| GraphModel.Linked | src/markov_chain.rs:99-102 | Strengthening an edge does not change the node set. |
| GraphModel.Added | src/markov_chain.rs:88-103 | After `add` the node set is the old one plus `word`. |
| GraphModel.AddedEffect | src/markov_chain.rs:88-103 | A new word becomes a node with no edges, or with only the edge to itself when it is also `last`. Nodes other than `last` are untouched. Edge `(a, b)` gains one exactly when `a` is `last` and `b` is `word`, and no other edge changes. The entry words gain `word` exactly when it is new and capitalised, so no word is listed twice. |
| GraphModel.AddedKeepsInv | src/markov_chain.rs:88-103 | `add` keeps the graph invariant: positive weights, edges between nodes, and an entry-word list that holds each capitalised node exactly once. |
| GraphModel.IngestDoc | src/markov_chain.rs:22-27 | Ingesting a document keeps every node and makes every token a node. |
| GraphModel.IngestDocStep | src/markov_chain.rs:24-26 | Each further token is added with the token before it as `last_word`, and the first token with none. |
| GraphModel.IngestDocNodes | src/markov_chain.rs:22-27 | After one document, the nodes are the old nodes plus the document's tokens, and nothing else. |
| GraphModel.Ingest | src/markov_chain.rs:16-28 | The documents are ingested one after another, each starting with no `last_word`. No node is lost. |
| GraphModel.IngestNodes | src/markov_chain.rs:16-28 | After all documents, the nodes are the old nodes plus the tokens of any document. |
| GraphModel.IngestDocKeepsInv | src/markov_chain.rs:22-27 | Ingesting one document keeps the graph invariant. |
| GraphModel.IngestKeepsInv | src/markov_chain.rs:16-28 | Ingesting any documents keeps the graph invariant. |
| GraphModel.IngestDocWeights | src/markov_chain.rs:22-27 | After one document, every edge weight has grown by the number of times its pair occurs adjacently in that document. |
| GraphModel.IngestWeights | src/markov_chain.rs:16-28 | After all documents, every edge weight has grown by the number of adjacent occurrences of its pair, counted within each document. |
| GraphModel.PairCountPositive | src/markov_chain.rs:22-27 | A pair is counted at least once exactly when some single document holds the two tokens next to each other. |
| GraphModel.IngestedGraph | src/markov_chain.rs:15-30 | From the empty graph:<br>• the invariant holds;<br>• the nodes are exactly the tokens of the documents;<br>• each edge weight is the pair's number of within-document adjacencies;<br>• an edge exists exactly between tokens adjacent in one document, so none spans two documents. |
| GraphModel.IngestedEntryWords | src/markov_chain.rs:15-30 | From the empty graph, the entry words are exactly the capitalised tokens of the documents, each listed once. |
| GraphModel.AddedTotalWeight | src/markov_chain.rs:99-102 | The total weight of all nodes grows by one with a `last_word` and stays the same without one. |
| GraphModel.IngestDocTotalWeight | src/markov_chain.rs:22-27 | One document of `n` tokens adds `n - 1` to the total weight, and an empty document adds 0. |
| GraphModel.IngestTotalWeight | src/markov_chain.rs:16-28 | All documents add their number of within-document adjacent pairs to the total weight. |
| GraphModel.IngestedTotalWeight | src/markov_chain.rs:15-30 | From the empty graph, the sum of all node sums is the number of adjacent token pairs within documents. |
| Markov.MarkovChain.constructor | src/markov_chain.rs:48-52 | A new generator has a fresh, empty and valid graph. |
| Markov.MarkovChain.ParseDocument | src/markov_chain.rs:22-27 | One document's loop leaves the graph in state `IngestDoc(old state, doc)`. It stays valid, and only fresh nodes are added. |
| Markov.MarkovChain.ParseIn | src/markov_chain.rs:15-30 | The graph ends in state `Ingest(old state, docs)` and keeps the invariant. |
| Markov.Graph.RandomEntryWord | src/markov_chain.rs:82-86 | It fails with `NoEntryWords` exactly when the list is empty. Otherwise it returns the entry word at the drawn index. |
| GraphModel.WalkExtends | src/markov_chain.rs:71-76 | A walk whose last word is not terminal continues along any edge of that word. |
| Walks.DrawsExtend | src/markov_chain.rs:73-75 | A walk whose every step took the successor picked by its draw stays so when one more step is taken that way. |
| Markov.Graph.GenerateTweet | src/markov_chain.rs:65-80 | On a valid graph with the invariant:<br>• it fails with `NoEntryWords` exactly when there are no entry words;<br>• otherwise the words start at the drawn entry word, and each later word is a successor of the one before it;<br>• each step's successor is the one `Node::next` picks for that step's draw under some iteration order;<br>• no word before the last is terminal;<br>• on success the last word is terminal and the tweet is the words joined by single spaces;<br>• it stops with `DeadEnd` only at a non-terminal word with no edges, and with `OutOfFuel` only after `fuel` steps;<br>• exactly one draw is used per word. |
| Words.IsEntryWord | src/markov_chain.rs:89-95 | `\A[A-Z]\w*` matches a token exactly when its first character is in `'A'..'Z'`. The `\w*` part may match nothing, so the rest of the token does not matter. |
| Words.IsTerminalChar | src/markov_chain.rs:70 | The class `[!\|.\|?]` holds exactly the four characters `!`, `\|`, `.` and `?`. |
| Words.IsTerminal | src/markov_chain.rs:70-71 | `.*[!\|.\|?]$` matches a token exactly when it is non-empty and its last character is one of those four. |
| Words.Join | src/markov_chain.rs:79 | `join(" ")` puts one space between neighbouring words. The result starts with the first word and ends with the last word. |
| Words.SplitJoin | src/markov_chain.rs:79 | Joining space-free words with single spaces is undone by splitting at spaces. A tweet determines its words. |
| Markov.MarkovChain.GenerateTweets | src/markov_chain.rs:39-43 | The loop calls `generate_tweet` `number` times and collects the tweets. It returns ghost `walks`, the walks it took, and satisfies `Generated`:<br>• each walk starts at the entry word picked by the first draw the earlier walks left unused, and then follows its draws;<br>• every walk but the last ends at a terminal word, and there are at most `max(number, 0)` walks;<br>• on success there are exactly `max(number, 0)` walks, all terminal-ended, and the tweets are the walks joined by spaces;<br>• a `DeadEnd` or `OutOfFuel` failure is the last walk's: that walk ends at a non-terminal word with no edges, or has `fuel + 1` words;<br>• it fails with `NoEntryWords` exactly when `number >= 1` and there are no entry words, and then it took no walk. |
| Markov.MarkovChain.CreateTweets | src/markov_chain.rs:36-46 | After ingesting the documents the graph is `Ingest(old state, docs)`, and the result and the ghost `walks` satisfy `Generated` on that graph, as for `GenerateTweets`. A successful call returns exactly `max(number, 0)` tweets. It fails with `NoEntryWords` exactly when `number >= 1` and the graph has no entry word after ingestion. Started on a new generator, that is exactly when no token of the documents is capitalised. |
| Walks.WalksExtend | src/markov_chain.rs:39-43 | Appending a walk that starts at the first unused draw keeps every walk taken from its own draws, and advances the draw count by the walk's length. |
| Walks.GeneratedSuccess | src/markov_chain.rs:39-45 | `max(number, 0)` terminal-ended walks, each taken from its draws, satisfy `Generated` with the walks joined as the tweets. |
| Walks.GeneratedWalkFailed | src/markov_chain.rs:39-43 | When the next walk after fewer than `number` terminal-ended walks fails with `DeadEnd` or `OutOfFuel`, the failure together with all the walks satisfies `Generated`. |
| Walks.GeneratedWalks | src/markov_chain.rs:39-43 | From `Generated`: every tweet of a success is a walk of the graph that ends at its first terminal word (`IsTweet`). A `DeadEnd` failure comes from a walk that stopped at a non-terminal word with no successors. An `OutOfFuel` failure comes from a walk of `fuel + 1` words that has not reached a terminal word. |
| Scenarios.OneDocument | src/markov_chain.rs:15-30 | The single file "The cat sat. The cat ran." gives the nodes `The`, `cat`, `sat.` and `ran.` and the entry words `[The]`. The edges are `The→cat` with weight 2, and `cat→sat.`, `cat→ran.` and `sat.→The` with weight 1. |
| Scenarios.NoEdgeAcrossDocuments | src/markov_chain.rs:22-27 | The files "Hello world." and "Goodbye now." leave no edge from `world.` to `Goodbye`. |
| Scenarios.TwoDocuments | src/markov_chain.rs:15-30 | The files "A b." and "C d" give the edges `A→b.` and `C→d`, each of weight 1, and the entry words `[A, C]`. |
| Scenarios.FirstEntryWordWalk | src/markov_chain.rs:36-46 | On that graph, ask for one tweet with every draw equal to 1 and `fuel >= 1`. Any result and walks that satisfy `Generated`, as `CreateTweets` on a new generator guarantees, are a success whose only walk is `[A, b.]`. |
| Scenarios.FirstEntryWordTweet | src/markov_chain.rs:65-80 | In the same case the result is exactly `Success(["A b."])`: the first entry word, then its only successor. |

## Left out

- File I/O: `fs::read_dir`, `fs::read_to_string` and their errors, and the `unwrap` of `parse_in`'s result in `create_tweets`, are not modelled. The documents are given as sequences of tokens, and the order of the files is the order of the sequence.
- `split_whitespace` is not modelled. The tokens it produces are the input.
- The random number generator (`thread_rng`, `gen_range`, `choose`) is the function parameter `rng`. Its only assumed property is that every draw is in range. No statement about randomness beyond counting the draws (`EdgeChosenByWeightDraws`) is made.
- The regex engine is not modelled. The two patterns are written as the character tests they amount to on whitespace-free tokens.
- The iteration order of `HashMap` is modelled as an arbitrary order, not Rust's.
- Markov.Node.IterationOrder: the order may differ each time the same node is visited. In Rust the order of an unmodified map stays the same, and the graph does not change during generation. So a walk (`DrawsFollowed`, which chooses an order per step) allows more behaviours than the program has.
- Markov.Graph.GenerateTweet: the walk is bounded by `fuel`, so a corpus whose walks can cycle forever without reaching a terminal word ends with `OutOfFuel` instead of looping forever.
- Markov.Graph.GenerateTweet: a walk that reaches a non-terminal word with no successors ends with `DeadEnd`, where the source panics in `gen_range(1..=0)`.
- Markov.Node.StrengthenEdge: weights and sums are unbounded integers. The `i32` overflow of `*weight += 1` and `self.sum += 1` after 2^31-1 strengthenings is not modelled.
- Markov.Graph.Add: the `unwrap` of `last_word`'s node is a precondition, not a panic. `last` must be a node once `word` has been inserted, which every caller in the program satisfies.
- `MarkovChain::generate_tweet` (lines 32-34) only forwards to `Graph::generate_tweet`. `GenerateTweets` calls `Graph.GenerateTweet` directly.
- The unit test `create_a_tweet` (lines 157-164) and src/main.rs, the command-line entry point, are not part of this model.
