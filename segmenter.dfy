/** The segmentation the tokenizer wraps around `nltk.word_tokenize`: optional
    lower-casing before it, and the multi-word-expression merge after it. */
module Segmenter {

  /** The middle words of the four configured expressions `<`, X, `>`. */
  const MweNames: seq<string> := ["BOS", "EOS", "UNK", "PAD"]

  function LowerChar(c: char): char
  {
    if 'A' <= c <= 'Z' then (c as int + 32) as char else c
  }

  /** `str.lower()`, on the ASCII letters. */
  function Lower(s: string): string
  {
    seq(|s|, i requires 0 <= i < |s| => LowerChar(s[i]))
  }

  lemma LowerIdempotent(s: string)
    ensures Lower(Lower(s)) == Lower(s)
    ensures forall i :: 0 <= i < |s| ==> !('A' <= Lower(s)[i] <= 'Z')
  {
  }

  /** Does `ts` start with one of the configured expressions? */
  predicate StartsWithMwe(ts: seq<string>)
  {
    |ts| >= 3 && ts[0] == "<" && ts[1] in MweNames && ts[2] == ">"
  }

  /** `MWETokenizer([('<', X, '>') for X in MweNames], separator='').tokenize`:
      a greedy left-to-right scan that replaces each configured run of three
      tokens by their concatenation and copies every other token. */
  function MergeMwes(ts: seq<string>): seq<string>
    decreases |ts|
  {
    if ts == [] then []
    else if StartsWithMwe(ts) then [ts[0] + ts[1] + ts[2]] + MergeMwes(ts[3..])
    else [ts[0]] + MergeMwes(ts[1..])
  }

  /** The text the tokens spell when joined without separator. */
  function Concat(ts: seq<string>): string
  {
    if ts == [] then "" else ts[0] + Concat(ts[1..])
  }

  /** Merging joins with the empty separator, so it never changes the text spelled. */
  lemma {:induction false} MergeKeepsText(ts: seq<string>)
    ensures Concat(MergeMwes(ts)) == Concat(ts)
    decreases |ts|
  {
    if ts == [] {
    } else if StartsWithMwe(ts) {
      MergeKeepsText(ts[3..]);
      assert ts[1..][1..] == ts[2..] && ts[2..][1..] == ts[3..];
      calc {
        Concat(ts);
        ts[0] + Concat(ts[1..]);
        ts[0] + (ts[1] + Concat(ts[2..]));
        ts[0] + (ts[1] + (ts[2] + Concat(ts[3..])));
        (ts[0] + ts[1] + ts[2]) + Concat(ts[3..]);
      }
    } else {
      MergeKeepsText(ts[1..]);
    }
  }

  /** Merging never lengthens the sequence, and shortens it by two per expression merged. */
  lemma {:induction false} MergeShortens(ts: seq<string>)
    ensures |MergeMwes(ts)| <= |ts|
    ensures |MergeMwes(ts)| == |ts| ==> MergeMwes(ts) == ts
    decreases |ts|
  {
    if ts == [] {
    } else if StartsWithMwe(ts) {
      MergeShortens(ts[3..]);
    } else {
      MergeShortens(ts[1..]);
    }
  }

  /** Only runs that begin with `<` are merged: without one the merge is the identity. */
  lemma {:induction false} MergeWithoutOpen(ts: seq<string>)
    requires "<" !in ts
    ensures MergeMwes(ts) == ts
    decreases |ts|
  {
    if ts != [] {
      assert !StartsWithMwe(ts);
      MergeWithoutOpen(ts[1..]);
    }
  }

  /** Every configured expression becomes one token. */
  lemma MergeJoinsExpression(name: string, rest: seq<string>)
    requires name in MweNames
    ensures MergeMwes(["<", name, ">"] + rest) == ["<" + name + ">"] + MergeMwes(rest)
  {
    var ts := ["<", name, ">"] + rest;
    assert StartsWithMwe(ts);
    assert ts[3..] == rest;
  }
}
