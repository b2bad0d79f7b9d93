/** The vocabulary `possible_chars`: an ordered sequence of characters whose
    positions are the indices the scorer and the sampler work with. */
module Vocabulary {
  import opened Errors

  type Vocab = seq<char>

  /** The boundary symbol that pads the initial window and ends a name. */
  const Boundary: char := '.'

  /** No character occurs twice. */
  predicate Distinct(vocab: Vocab) {
    forall i, j :: 0 <= i < j < |vocab| ==> vocab[i] != vocab[j]
  }

  /** `encode(x)`, that is `possible_chars.index(x)`: the FIRST position of `c`,
      or UnknownCharacter when `c` does not occur. */
  function IndexOf(vocab: Vocab, c: char): (r: Result<nat>)
    ensures r.Ok? <==> c in vocab
    ensures r.Ok? ==> r.value < |vocab| && vocab[r.value] == c
    ensures r.Ok? ==> forall j :: 0 <= j < r.value ==> vocab[j] != c
    ensures r.Err? ==> r.error == UnknownCharacter(c)
  {
    if |vocab| == 0 then Err(UnknownCharacter(c))
    else if vocab[0] == c then Ok(0)
    else
      match IndexOf(vocab[1..], c)
      case Ok(i) => Ok(i + 1)
      case Err(e) => Err(e)
  }

  /** `possible_chars[i]` for a non-negative index `i`. */
  function CharAt(vocab: Vocab, i: nat): (r: Result<char>)
    ensures r.Ok? <==> i < |vocab|
    ensures r.Ok? ==> r.value == vocab[i]
    ensures r.Err? ==> r.error == IndexOutOfRange(i)
  {
    if i < |vocab| then Ok(vocab[i]) else Err(IndexOutOfRange(i))
  }

  /** Decoding an encoded character gives the character back. */
  lemma CharAtIndexOf(vocab: Vocab, c: char)
    requires c in vocab
    ensures IndexOf(vocab, c).Ok?
    ensures CharAt(vocab, IndexOf(vocab, c).value) == Ok(c)
  {
  }

  /** In a vocabulary without repeated characters, encoding the character at a
      position gives that position back: the two maps are inverse bijections. */
  lemma IndexOfCharAt(vocab: Vocab, i: nat)
    requires Distinct(vocab)
    requires i < |vocab|
    ensures CharAt(vocab, i).Ok?
    ensures IndexOf(vocab, CharAt(vocab, i).value) == Ok(i)
  {
  }

  /** `[encode(c) for c in content_block]`: the index of every character of the
      window, in order; the first character that is missing, scanning from the
      left, raises UnknownCharacter. */
  function EncodeWindow(vocab: Vocab, window: seq<char>): (r: Result<seq<nat>>)
    ensures r.Ok? <==> forall k :: 0 <= k < |window| ==> window[k] in vocab
    ensures r.Ok? ==> |r.value| == |window|
    ensures r.Ok? ==> forall k :: 0 <= k < |window| ==>
                        r.value[k] < |vocab| && vocab[r.value[k]] == window[k]
    ensures r.Ok? ==> forall k :: 0 <= k < |window| ==> IndexOf(vocab, window[k]) == Ok(r.value[k])
    ensures r.Err? ==> r.error.UnknownCharacter? && r.error.c in window && r.error.c !in vocab
  {
    if |window| == 0 then Ok([])
    else
      match IndexOf(vocab, window[0])
      case Err(e) => Err(e)
      case Ok(i) =>
        match EncodeWindow(vocab, window[1..])
        case Err(e) => Err(e)
        case Ok(rest) =>
          var indices := [i] + rest;
          assert forall k :: 1 <= k < |window| ==> window[1..][k - 1] == window[k] && indices[k] == rest[k - 1];
          Ok(indices)
  }
}
