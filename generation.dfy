/** Generation of one name: the `while True` loop of male_names.py, with the
    scorer and the sampler replaced by a finite stream of drawn indices. */
module Generation {
  import opened Errors
  import opened Vocabulary

  /** The number of characters the scorer sees. */
  const ContextLength: nat := 3

  /** `content_block = '...'`: the window every name starts from. */
  const InitialWindow: seq<char> := [Boundary, Boundary, Boundary]

  /** `content_block[1:] + next_char`: drop the oldest character, append the new one. */
  function Slide(window: seq<char>, c: char): seq<char> {
    if window == [] then [c] else window[1..] + [c]
  }

  /** The window after the characters of `s` have been accepted one by one. */
  function SlideAll(window: seq<char>, s: seq<char>): seq<char>
    decreases |s|
  {
    if s == [] then window else Slide(SlideAll(window, s[..|s| - 1]), s[|s| - 1])
  }

  /** Sliding keeps the window's length, and the window is always the last
      `|window|` characters of the start window followed by what was accepted. */
  lemma {:induction false} WindowIsSuffix(window: seq<char>, s: seq<char>)
    requires |window| >= 1
    ensures |SlideAll(window, s)| == |window|
    ensures SlideAll(window, s) == (window + s)[|s|..]
    decreases |s|
  {
    if s != [] {
      var init := s[..|s| - 1];
      WindowIsSuffix(window, init);
      assert window + s == (window + init) + [s[|s| - 1]];
    }
  }

  /** The window of a name: three characters, the last three of `'...' + name`. */
  lemma NameWindow(name: seq<char>)
    ensures |SlideAll(InitialWindow, name)| == ContextLength
    ensures SlideAll(InitialWindow, name) == (InitialWindow + name)[|name|..]
  {
    WindowIsSuffix(InitialWindow, name);
  }

  /** A drawn index that the loop accepts: a position of the vocabulary that is not the boundary. */
  predicate Accepts(vocab: Vocab, d: nat) {
    d < |vocab| && vocab[d] != Boundary
  }

  /** A drawn index that ends the loop: it is the boundary, or no position at all. */
  predicate Stops(vocab: Vocab, d: nat) {
    !Accepts(vocab, d)
  }

  /** The position of the first draw at or after `j` that ends the loop, if any. */
  function StopAt(vocab: Vocab, draws: seq<nat>, j: nat): (r: Option<nat>)
    requires j <= |draws|
    ensures r.Some? ==> j <= r.value < |draws| && Stops(vocab, draws[r.value])
    ensures r.Some? ==> forall k :: j <= k < r.value ==> Accepts(vocab, draws[k])
    ensures r.None? ==> forall k :: j <= k < |draws| ==> Accepts(vocab, draws[k])
    decreases |draws| - j
  {
    if j == |draws| then None
    else if Stops(vocab, draws[j]) then Some(j)
    else StopAt(vocab, draws, j + 1)
  }

  /** The characters of the draws in `[start, stop)`, in draw order. */
  function Decode(vocab: Vocab, draws: seq<nat>, start: nat, stop: nat): (r: seq<char>)
    requires start <= stop <= |draws|
    requires forall k :: start <= k < stop ==> Accepts(vocab, draws[k])
    ensures |r| == stop - start
    ensures forall k :: 0 <= k < |r| ==> Accepts(vocab, draws[start + k]) && r[k] == vocab[draws[start + k]]
    ensures forall k :: 0 <= k < |r| ==> r[k] in vocab && r[k] != Boundary
    decreases stop - start
  {
    if stop == start then []
    else
      assert Accepts(vocab, draws[stop - 1]);
      Decode(vocab, draws, start, stop - 1) + [vocab[draws[stop - 1]]]
  }

  /** What one generated name leaves behind: the name, the final window and the
      position in the draw stream just after the boundary draw. */
  datatype Generated = Generated(name: seq<char>, window: seq<char>, next: nat)

  /** What the loop produces from the draws at `start`, described without the
      loop: the name is the decoded characters of the draws before the first draw
      that ends the loop. The boundary must be in the vocabulary, since encoding
      the initial window asks for it before anything is drawn. */
  function NameSpec(vocab: Vocab, draws: seq<nat>, start: nat): (r: Result<Generated>)
    requires start <= |draws|
    ensures r.Ok? ==> start < r.value.next <= |draws|
  {
    if Boundary !in vocab then Err(UnknownCharacter(Boundary))
    else
      match StopAt(vocab, draws, start)
      case None => Err(DrawsExhausted)
      case Some(i) =>
        if draws[i] >= |vocab| then Err(IndexOutOfRange(draws[i]))
        else
          var name := Decode(vocab, draws, start, i);
          Ok(Generated(name, (InitialWindow + name)[|name|..], i + 1))
  }

  /** The failures of one name: a vocabulary without the boundary fails before
      any draw; a stream with no stopping draw runs out; a first stopping draw
      that is no position of the vocabulary is reported. */
  lemma NameSpecErrors(vocab: Vocab, draws: seq<nat>, start: nat)
    requires start <= |draws|
    ensures NameSpec(vocab, draws, start) == Err(UnknownCharacter(Boundary)) <==> Boundary !in vocab
    ensures NameSpec(vocab, draws, start) == Err(DrawsExhausted) <==>
              Boundary in vocab && forall k :: start <= k < |draws| ==> Accepts(vocab, draws[k])
    ensures NameSpec(vocab, draws, start).Err? && NameSpec(vocab, draws, start).error.IndexOutOfRange? ==>
              Boundary in vocab &&
              (exists k :: start <= k < |draws| && draws[k] >= |vocab| &&
                 NameSpec(vocab, draws, start).error.index == draws[k] &&
                 forall j :: start <= j < k ==> Accepts(vocab, draws[j]))
  {
  }

  /** A generated name: it ends at a boundary draw, its characters are those of
      the earlier draws in draw order, none of them is the boundary, and all are
      in the vocabulary. */
  lemma NameSpecOk(vocab: Vocab, draws: seq<nat>, start: nat)
    requires start <= |draws|
    requires NameSpec(vocab, draws, start).Ok?
    ensures var g := NameSpec(vocab, draws, start).value;
      && draws[g.next - 1] < |vocab| && vocab[draws[g.next - 1]] == Boundary
      && |g.name| == g.next - 1 - start
      && (forall k :: 0 <= k < |g.name| ==> Accepts(vocab, draws[start + k]) && g.name[k] == vocab[draws[start + k]])
      && (forall k :: 0 <= k < |g.name| ==> g.name[k] != Boundary && g.name[k] in vocab)
  {
    var i := StopAt(vocab, draws, start).value;
    var name := Decode(vocab, draws, start, i);
    assert NameSpec(vocab, draws, start) == Ok(Generated(name, (InitialWindow + name)[|name|..], i + 1));
  }

  /** The final window of a generated name is three characters long and is the
      one the successive slides of the name's characters produce. */
  lemma NameSpecWindow(vocab: Vocab, draws: seq<nat>, start: nat)
    requires start <= |draws|
    requires NameSpec(vocab, draws, start).Ok?
    ensures var g := NameSpec(vocab, draws, start).value;
      |g.window| == ContextLength && g.window == SlideAll(InitialWindow, g.name)
  {
    var g := NameSpec(vocab, draws, start).value;
    assert g.window == (InitialWindow + g.name)[|g.name|..];
    NameWindow(g.name);
  }

  /** The converse direction: draws at `start` that decode to non-boundary
      characters up to a boundary draw at `stop` yield exactly those characters. */
  lemma NameFromDraws(vocab: Vocab, draws: seq<nat>, start: nat, stop: nat)
    requires start <= stop < |draws|
    requires forall k :: start <= k < stop ==> Accepts(vocab, draws[k])
    requires draws[stop] < |vocab| && vocab[draws[stop]] == Boundary
    ensures NameSpec(vocab, draws, start).Ok?
    ensures NameSpec(vocab, draws, start).value.next == stop + 1
    ensures NameSpec(vocab, draws, start).value.name ==
              seq(stop - start, k requires 0 <= k < stop - start => vocab[draws[start + k]])
  {
  }

  /** Draws that do not end the loop are skipped by the search for the first one that does. */
  lemma {:induction false} StopAtSkips(vocab: Vocab, draws: seq<nat>, start: nat, pos: nat)
    requires start <= pos <= |draws|
    requires forall k :: start <= k < pos ==> Accepts(vocab, draws[k])
    ensures StopAt(vocab, draws, start) == StopAt(vocab, draws, pos)
    decreases pos - start
  {
    if start < pos {
      StopAtSkips(vocab, draws, start + 1, pos);
    }
  }

  /** Accepting one more character slides the window of a name by that character. */
  lemma SlideStep(name: seq<char>, c: char)
    ensures Slide((InitialWindow + name)[|name|..], c) == (InitialWindow + (name + [c]))[|name| + 1..]
  {
  }

  /** Once the draws in `[start, pos)` have all been accepted as the characters
      of `name`, the outcome of the name is decided by the draw at `pos`, if
      there is one. */
  lemma NameSpecAt(vocab: Vocab, draws: seq<nat>, start: nat, pos: nat, name: seq<char>)
    requires Boundary in vocab
    requires start <= pos <= |draws|
    requires forall k :: start <= k < pos ==> Accepts(vocab, draws[k])
    requires |name| == pos - start
    requires forall k :: 0 <= k < |name| ==> Accepts(vocab, draws[start + k]) && name[k] == vocab[draws[start + k]]
    ensures pos == |draws| ==> NameSpec(vocab, draws, start) == Err(DrawsExhausted)
    ensures pos < |draws| && draws[pos] >= |vocab| ==>
              NameSpec(vocab, draws, start) == Err(IndexOutOfRange(draws[pos]))
    ensures pos < |draws| && draws[pos] < |vocab| && vocab[draws[pos]] == Boundary ==>
              NameSpec(vocab, draws, start) == Ok(Generated(name, (InitialWindow + name)[|name|..], pos + 1))
  {
    StopAtSkips(vocab, draws, start, pos);
    assert Decode(vocab, draws, start, pos) == name;
  }

  /** Encoding the window of a name made of vocabulary characters succeeds when
      the boundary padding is in the vocabulary; the initial window of a
      vocabulary without the boundary fails, for the boundary. */
  lemma EncodeNameWindow(vocab: Vocab, name: seq<char>)
    requires forall k :: 0 <= k < |name| ==> name[k] in vocab
    ensures Boundary in vocab ==> EncodeWindow(vocab, (InitialWindow + name)[|name|..]).Ok?
    ensures Boundary !in vocab && name == [] ==>
              EncodeWindow(vocab, (InitialWindow + name)[|name|..]) == Err(UnknownCharacter(Boundary))
  {
    var window := (InitialWindow + name)[|name|..];
    forall k | 0 <= k < |window|
      ensures window[k] == Boundary || window[k] in vocab
    {
      var padded := InitialWindow + name;
      assert window[k] == padded[|name| + k];
    }
  }

  /** The generation loop for one name, reading draws from position `start`.
      Each turn encodes the window (the scorer's input), takes the next draw,
      decodes it, stops on the boundary without appending it, and otherwise
      appends the character to the name and slides the window. */
  method GenerateName(vocab: Vocab, draws: seq<nat>, start: nat) returns (r: Result<Generated>)
    requires start <= |draws|
    ensures r == NameSpec(vocab, draws, start)
  {
    var window := InitialWindow;
    var name: seq<char> := [];
    var pos := start;
    while true
      invariant start <= pos <= |draws|
      invariant forall k :: start <= k < pos ==> Accepts(vocab, draws[k])
      invariant |name| == pos - start
      invariant forall k :: 0 <= k < |name| ==> Accepts(vocab, draws[start + k]) && name[k] == vocab[draws[start + k]]
      invariant window == (InitialWindow + name)[|name|..]
      invariant pos > start ==> Boundary in vocab
      decreases |draws| - pos
    {
      var encoded := EncodeWindow(vocab, window);
      if encoded.Err? {
        r := Err(encoded.error);
        assert r == NameSpec(vocab, draws, start) by {
          EncodeNameWindow(vocab, name);
        }
        return;
      }
      assert Boundary in vocab by {
        if pos == start {
          assert window == InitialWindow;
          assert window[0] in vocab;
        }
      }
      if pos == |draws| {
        r := Err(DrawsExhausted);
        assert r == NameSpec(vocab, draws, start) by {
          NameSpecAt(vocab, draws, start, pos, name);
        }
        return;
      }
      var index := draws[pos];
      var next := CharAt(vocab, index);
      if next.Err? {
        r := Err(next.error);
        assert r == NameSpec(vocab, draws, start) by {
          NameSpecAt(vocab, draws, start, pos, name);
        }
        return;
      }
      if next.value == Boundary {
        r := Ok(Generated(name, window, pos + 1));
        assert r == NameSpec(vocab, draws, start) by {
          NameSpecAt(vocab, draws, start, pos, name);
        }
        return;
      }
      SlideStep(name, next.value);
      window := Slide(window, next.value);
      name := name + [next.value];
      pos := pos + 1;
    }
  }
}
