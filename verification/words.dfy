/** The two regular expressions of the generator, written as character tests,
    and the joining of a tweet's words with single spaces. */
module Words {

  /** The entry-word pattern `\A[A-Z]\w*`: the `\w*` part may match nothing, so
      a token qualifies exactly when its first character is an ASCII capital. */
  predicate IsEntryWord(w: string) {
    |w| > 0 && 'A' <= w[0] <= 'Z'
  }

  /** The characters of the class `[!|.|?]`: the `|` inside the brackets is a
      literal, so the class holds four characters. */
  predicate IsTerminalChar(c: char) {
    c == '!' || c == '|' || c == '.' || c == '?'
  }

  /** The terminal pattern `.*[!|.|?]$`: the token ends in one of the four
      characters of the class. */
  predicate IsTerminal(w: string) {
    |w| > 0 && IsTerminalChar(w[|w| - 1])
  }

  /** `words.join(" ")`: the text starts with the first word and ends with
      the last. */
  function Join(words: seq<string>): (r: string)
    ensures |words| >= 1 ==> words[0] <= r
    ensures |words| >= 1 ==> |words[|words| - 1]| <= |r| && words[|words| - 1] == r[|r| - |words[|words| - 1]|..]
  {
    if |words| == 0 then ""
    else if |words| == 1 then words[0]
    else
      var tail := Join(words[1..]);
      var last := words[|words| - 1];
      assert last == words[1..][|words| - 2];
      var r := words[0] + " " + tail;
      assert r[|r| - |last|..] == tail[|tail| - |last|..];
      r
  }

  /** Splitting at every single space, keeping empty pieces (`str::split(' ')`);
      the reference inverse of Join. */
  function Split(s: string): (pieces: seq<string>)
    ensures |pieces| >= 1
  {
    if |s| == 0 then [""]
    else
      var rest := Split(s[1..]);
      if s[0] == ' ' then [""] + rest
      else [[s[0]] + rest[0]] + rest[1..]
  }

  predicate NoSpace(w: string) {
    forall i :: 0 <= i < |w| ==> w[i] != ' '
  }

  /** A word without spaces is one piece. */
  lemma {:induction false} SplitWord(w: string)
    requires NoSpace(w)
    ensures Split(w) == [w]
  {
    if |w| > 0 {
      SplitWord(w[1..]);
      assert [w[0]] + w[1..] == w;
    }
  }

  /** A space right after a word without spaces ends that word's piece. */
  lemma {:induction false} SplitAfterWord(w: string, t: string)
    requires NoSpace(w)
    ensures Split(w + " " + t) == [w] + Split(t)
  {
    var s := w + " " + t;
    if |w| == 0 {
      assert s == " " + t;
      assert s[1..] == t;
    } else {
      assert s[1..] == w[1..] + " " + t;
      SplitAfterWord(w[1..], t);
      assert [w[0]] + w[1..] == w;
    }
  }

  /** Joining with single spaces loses nothing: splitting the joined text at
      spaces gives back exactly the words, provided none contains a space. */
  lemma {:induction false} SplitJoin(words: seq<string>)
    requires |words| >= 1
    requires forall i :: 0 <= i < |words| ==> NoSpace(words[i])
    ensures Split(Join(words)) == words
  {
    if |words| == 1 {
      SplitWord(words[0]);
    } else {
      SplitJoin(words[1..]);
      SplitAfterWord(words[0], Join(words[1..]));
      assert [words[0]] + words[1..] == words;
    }
  }
}
