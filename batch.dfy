/** The batch driver of male_names.py: `n_names` runs of the generation loop,
    each from a fresh window and an empty name, all reading one shared stream
    of draws, collected in generation order. */
module Batch {
  import opened Errors
  import opened Vocabulary
  import opened Generation

  /** The names generated so far and the position reached in the draw stream. */
  datatype Names = Names(names: seq<seq<char>>, next: nat)

  /** The first `n` names drawn from the stream at `start`: name `i + 1` reads
      the draws that follow name `i`'s boundary draw. A failing name aborts the
      whole batch, as the exception does in the source. */
  function BatchSpec(vocab: Vocab, n: nat, draws: seq<nat>, start: nat): (r: Result<Names>)
    requires start <= |draws|
    ensures n == 0 ==> r == Ok(Names([], start))
    ensures r.Ok? ==> |r.value.names| == n && start + n <= r.value.next <= |draws|
    decreases n
  {
    if n == 0 then Ok(Names([], start))
    else
      match BatchSpec(vocab, n - 1, draws, start)
      case Err(e) => Err(e)
      case Ok(done) =>
        match NameSpec(vocab, draws, done.next)
        case Err(e) => Err(e)
        case Ok(g) =>
          Ok(Names(done.names + [g.name], g.next))
  }

  /** Once a batch has failed, asking for more names fails the same way. */
  lemma {:induction false} BatchErrorPersists(vocab: Vocab, m: nat, n: nat, draws: seq<nat>, start: nat)
    requires start <= |draws|
    requires m <= n
    requires BatchSpec(vocab, m, draws, start).Err?
    ensures BatchSpec(vocab, n, draws, start) == BatchSpec(vocab, m, draws, start)
    decreases n - m
  {
    if m < n {
      BatchErrorPersists(vocab, m, n - 1, draws, start);
    }
  }

  /** A batch of `n > 0` names is the batch of the first `n - 1` names followed
      by one more name, generated from where those stopped. */
  lemma BatchStep(vocab: Vocab, n: nat, draws: seq<nat>, start: nat)
    requires start <= |draws|
    requires n > 0
    requires BatchSpec(vocab, n, draws, start).Ok?
    ensures BatchSpec(vocab, n - 1, draws, start).Ok?
    ensures NameSpec(vocab, draws, BatchSpec(vocab, n - 1, draws, start).value.next).Ok?
    ensures BatchSpec(vocab, n, draws, start).value.names ==
              BatchSpec(vocab, n - 1, draws, start).value.names +
              [NameSpec(vocab, draws, BatchSpec(vocab, n - 1, draws, start).value.next).value.name]
  {
  }

  /** Every name of a batch is the name generated from a fresh window and an
      empty name at the stream position where the names before it stopped:
      nothing but the draw stream carries over from one name to the next, and
      the names appear in generation order. */
  lemma {:induction false} BatchEntry(vocab: Vocab, n: nat, draws: seq<nat>, start: nat, i: nat)
    requires start <= |draws|
    requires BatchSpec(vocab, n, draws, start).Ok?
    requires i < n
    ensures BatchSpec(vocab, i, draws, start).Ok?
    ensures BatchSpec(vocab, i, draws, start).value.names ==
              BatchSpec(vocab, n, draws, start).value.names[..i]
    ensures NameSpec(vocab, draws, BatchSpec(vocab, i, draws, start).value.next).Ok?
    ensures NameSpec(vocab, draws, BatchSpec(vocab, i, draws, start).value.next).value.name ==
              BatchSpec(vocab, n, draws, start).value.names[i]
    decreases n
  {
    BatchStep(vocab, n, draws, start);
    var prev := BatchSpec(vocab, n - 1, draws, start).value.names;
    var all := BatchSpec(vocab, n, draws, start).value.names;
    var before := BatchSpec(vocab, i, draws, start);
    if i < n - 1 {
      BatchEntry(vocab, n - 1, draws, start, i);
      assert before.value.names == prev[..i];
      assert all[..i] == prev[..i];
      assert all[i] == prev[i];
    } else {
      assert before == BatchSpec(vocab, n - 1, draws, start);
      assert all[..i] == prev;
      assert all[i] == NameSpec(vocab, draws, before.value.next).value.name;
    }
  }

  /** No name of a batch contains the boundary, and every character of every
      name is in the vocabulary. */
  lemma BatchNamesClean(vocab: Vocab, n: nat, draws: seq<nat>, start: nat)
    requires start <= |draws|
    requires BatchSpec(vocab, n, draws, start).Ok?
    ensures forall i, k :: 0 <= i < n && 0 <= k < |BatchSpec(vocab, n, draws, start).value.names[i]| ==>
              BatchSpec(vocab, n, draws, start).value.names[i][k] != Boundary &&
              BatchSpec(vocab, n, draws, start).value.names[i][k] in vocab
  {
    var names := BatchSpec(vocab, n, draws, start).value.names;
    forall i, k | 0 <= i < n && 0 <= k < |names[i]|
      ensures names[i][k] != Boundary && names[i][k] in vocab
    {
      BatchEntry(vocab, n, draws, start, i);
      NameSpecOk(vocab, draws, BatchSpec(vocab, i, draws, start).value.next);
    }
  }

  /** With every draw on the boundary, each name stops at its first draw: the
      batch is `n` empty names and uses exactly `n` draws. */
  lemma {:induction false} AllBoundaryDraws(vocab: Vocab, n: nat, draws: seq<nat>)
    requires n <= |draws|
    requires forall k :: 0 <= k < |draws| ==> draws[k] < |vocab| && vocab[draws[k]] == Boundary
    ensures BatchSpec(vocab, n, draws, 0) == Ok(Names(seq(n, _ => ""), n))
  {
    if n > 0 {
      AllBoundaryDraws(vocab, n - 1, draws);
      NameFromDraws(vocab, draws, n - 1, n - 1);
      assert NameSpec(vocab, draws, n - 1).value.name == "";
      assert seq(n - 1, _ => "") + [""] == seq(n, _ => "");
    } else {
      assert seq(n, _ => "") == [];
    }
  }

  /** The `for` loop of the source: `n_names` names, one after another, from the
      start of the draw stream, each appended to the list. */
  method GenerateBatch(vocab: Vocab, nNames: nat, draws: seq<nat>) returns (r: Result<Names>)
    ensures r == BatchSpec(vocab, nNames, draws, 0)
  {
    var names: seq<seq<char>> := [];
    var pos: nat := 0;
    for i := 0 to nNames
      invariant pos <= |draws|
      invariant BatchSpec(vocab, i, draws, 0) == Ok(Names(names, pos))
    {
      var g := GenerateName(vocab, draws, pos);
      if g.Err? {
        BatchErrorPersists(vocab, i + 1, nNames, draws, 0);
        return Err(g.error);
      }
      names := names + [g.value.name];
      pos := g.value.next;
    }
    r := Ok(Names(names, pos));
  }
}
