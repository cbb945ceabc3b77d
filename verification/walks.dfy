/** The walks tweet generation takes, as values: the random draws that
    choose each word, a walk that follows them, and the outcome of a run of
    walks. The loops of Markov are proved against these. */
module Walks {
  import opened Wrappers
  import opened Words
  import opened Weights
  import opened GraphModel

  /** Why a walk gives no tweet: `choose` on an empty entry-word list, a
      visited word with no successors, or the walk running out of fuel. */
  datatype WalkError = NoEntryWords | DeadEnd | OutOfFuel

  /** The random number generator: the `i`-th draw, asked for a number in
      `1..=n`, gives `rng(i, n)`. */
  type Rng = (nat, int) -> int

  ghost predicate InRange(rng: Rng) {
    forall i: nat, n: int :: 1 <= n ==> 1 <= rng(i, n) <= n
  }

  /** The draws the walks used up, one per word. */
  function DrawsUsed(walks: seq<seq<string>>): nat {
    if walks == [] then 0 else DrawsUsed(walks[..|walks| - 1]) + |walks[|walks| - 1]|
  }

  /** Each walk joined into its tweet. */
  function JoinEach(walks: seq<seq<string>>): seq<string> {
    seq(|walks|, k requires 0 <= k < |walks| => Join(walks[k]))
  }

  /** The walk reached a terminal word. */
  predicate EndsTerminal(words: seq<string>) {
    |words| >= 1 && IsTerminal(words[|words| - 1])
  }

  /** Every walk reached a terminal word. */
  predicate AllEndTerminal(walks: seq<seq<string>>) {
    forall k :: 0 <= k < |walks| ==> EndsTerminal(walks[k])
  }

  /** The walk `Graph::generate_tweet` takes from draw `i`: a walk of the
      graph starting at the entry word draw `i` selects, each step taking the
      successor its draw picks. */
  ghost predicate WalkFrom(g: GraphState, words: seq<string>, rng: Rng, i: nat) {
    && IsWalk(g, words)
    && 1 <= rng(i, |g.entryWords|) <= |g.entryWords|
    && words[0] == g.entryWords[rng(i, |g.entryWords|) - 1]
    && DrawsFollowed(g, words, rng, i)
  }

  /** Walk `k` of `walks` is the one taken from the draws the walks before
      it left. */
  ghost predicate WalkTaken(g: GraphState, rng: Rng, walks: seq<seq<string>>, k: nat)
    requires k < |walks|
  {
    WalkFrom(g, walks[k], rng, DrawsUsed(walks[..k]))
  }

  /** Every walk is the one taken from the draws the walks before it left. */
  ghost predicate Taken(g: GraphState, rng: Rng, walks: seq<seq<string>>) {
    forall k :: 0 <= k < |walks| ==> WalkTaken(g, rng, walks, k)
  }

  /** The outcome of generating `number` tweets on graph `g` through
      `walks`: at most `number` walks, each taken from the draws the walks
      before it left, every walk but the last ending at a terminal word.
      Success takes `number` walks, or none when `number` is not positive,
      and joins every walk into its tweet. A failure needs `number >= 1`: a
      `DeadEnd` or `OutOfFuel` failure is the last walk's, which stopped at
      a non-terminal word with no edges or after `fuel` steps, and
      `NoEntryWords` happens without entry words and takes no walk. */
  ghost predicate Generated(g: GraphState, number: int, rng: Rng, fuel: nat,
                            r: Result<seq<string>, WalkError>, walks: seq<seq<string>>) {
    && |walks| <= (if number > 0 then number else 0)
    && Taken(g, rng, walks)
    && (forall k :: 0 <= k < |walks| - 1 ==> EndsTerminal(walks[k]))
    && (r.Success? ==> |walks| == (if number > 0 then number else 0))
    && (r.Success? ==> r.value == JoinEach(walks) && AllEndTerminal(walks))
    && (r.Failure? ==> number >= 1)
    && (r == Failure(NoEntryWords) ==> walks == [] && g.entryWords == [])
    && (r.Failure? && r.error != NoEntryWords ==>
          && walks != []
          && var w := walks[|walks| - 1];
             && |w| >= 1
             && !IsTerminal(w[|w| - 1])
             && (r.error == DeadEnd ==> EdgesOf(g, w[|w| - 1]) == map[])
             && (r.error == OutOfFuel ==> |w| == fuel + 1))
  }

  lemma {:induction false} WalksExtend(g: GraphState, rng: Rng, walks: seq<seq<string>>, words: seq<string>)
    requires Taken(g, rng, walks)
    requires WalkFrom(g, words, rng, DrawsUsed(walks))
    ensures DrawsUsed(walks + [words]) == DrawsUsed(walks) + |words|
    ensures Taken(g, rng, walks + [words])
  {
    var ext := walks + [words];
    assert ext[..|walks|] == walks;
    forall k | 0 <= k < |ext|
      ensures WalkTaken(g, rng, ext, k)
    {
      if k < |walks| {
        assert WalkTaken(g, rng, walks, k);
        assert ext[k] == walks[k] && ext[..k] == walks[..k];
      } else {
        assert ext[k] == words && ext[..k] == walks;
      }
    }
  }

  lemma {:induction false} AllEndTerminalExtend(walks: seq<seq<string>>, words: seq<string>)
    requires AllEndTerminal(walks) && EndsTerminal(words)
    ensures AllEndTerminal(walks + [words])
  {
    var ext := walks + [words];
    forall k | 0 <= k < |ext|
      ensures EndsTerminal(ext[k])
    {
      if k < |walks| {
        assert ext[k] == walks[k];
      }
    }
  }

  lemma {:induction false} JoinEachExtend(walks: seq<seq<string>>, words: seq<string>)
    ensures JoinEach(walks + [words]) == JoinEach(walks) + [Join(words)]
  {
    var ext := walks + [words];
    assert forall k :: 0 <= k < |walks| ==> ext[k] == walks[k];
  }

  lemma {:induction false} GeneratedSuccess(g: GraphState, number: int, rng: Rng, fuel: nat, walks: seq<seq<string>>)
    requires Taken(g, rng, walks) && |walks| == (if number > 0 then number else 0)
    requires AllEndTerminal(walks)
    ensures Generated(g, number, rng, fuel, Success(JoinEach(walks)), walks)
  {
  }

  lemma {:induction false} GeneratedNoEntryWords(g: GraphState, number: int, rng: Rng, fuel: nat)
    requires number >= 1 && g.entryWords == []
    ensures Generated(g, number, rng, fuel, Failure(NoEntryWords), [])
  {
  }

  /** A walk that fails ends the call, after the walks taken before it. */
  lemma {:induction false} GeneratedWalkFailed(g: GraphState, number: int, rng: Rng, fuel: nat, e: WalkError,
                                               walks: seq<seq<string>>, words: seq<string>)
    requires |walks| < number && Taken(g, rng, walks) && AllEndTerminal(walks)
    requires e != NoEntryWords
    requires WalkFrom(g, words, rng, DrawsUsed(walks)) && !IsTerminal(words[|words| - 1])
    requires e == DeadEnd ==> EdgesOf(g, words[|words| - 1]) == map[]
    requires e == OutOfFuel ==> |words| == fuel + 1
    ensures Generated(g, number, rng, fuel, Failure(e), walks + [words])
  {
    WalksExtend(g, rng, walks, words);
    var all := walks + [words];
    forall k | 0 <= k < |all| - 1
      ensures EndsTerminal(all[k])
    {
      assert all[k] == walks[k];
    }
  }

  /** What `Generated` tells a caller: every tweet is a walk of the graph
      that ends at a terminal word, and a `DeadEnd` or `OutOfFuel` failure
      comes with the walk that failed. */
  lemma {:induction false} GeneratedWalks(g: GraphState, number: int, rng: Rng, fuel: nat,
                                          r: Result<seq<string>, WalkError>, walks: seq<seq<string>>)
    requires Generated(g, number, rng, fuel, r, walks)
    ensures r.Success? ==> forall t :: t in r.value ==> IsTweet(g, t)
    ensures r == Failure(DeadEnd) ==>
      exists w :: IsWalk(g, w) && !IsTerminal(w[|w| - 1]) && EdgesOf(g, w[|w| - 1]) == map[]
    ensures r == Failure(OutOfFuel) ==>
      exists w :: IsWalk(g, w) && !IsTerminal(w[|w| - 1]) && |w| == fuel + 1
  {
    if r.Success? {
      forall t | t in r.value
        ensures IsTweet(g, t)
      {
        var k :| 0 <= k < |r.value| && r.value[k] == t;
        assert WalkTaken(g, rng, walks, k);
      }
    } else if r.error != NoEntryWords {
      var w := walks[|walks| - 1];
      assert WalkTaken(g, rng, walks, |walks| - 1);
    }
  }

  /** Every step of the walk took the successor that `Node::next` picks for
      the draw made at that step, under some iteration order of the edges. */
  ghost predicate DrawsFollowed(g: GraphState, words: seq<string>, rng: Rng, i: nat) {
    forall j :: 0 <= j < |words| - 1 ==>
      ChosenBy(g, words[j], rng(i + 1 + j, Total(EdgesOf(g, words[j]))), words[j + 1])
  }

  lemma {:induction false} DrawsExtend(g: GraphState, words: seq<string>, rng: Rng, i: nat, order: seq<string>, w: string)
    requires |words| >= 1 && DrawsFollowed(g, words, rng, i)
    requires Enumerates(order, EdgesOf(g, words[|words| - 1]))
    requires Pick(EdgesOf(g, words[|words| - 1]), order, rng(i + |words|, Total(EdgesOf(g, words[|words| - 1])))) == Some(w)
    ensures DrawsFollowed(g, words + [w], rng, i)
  {
  }
}
