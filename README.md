# Character-level name generator: the sampling loop

This project models the discrete part of `laboratory/male_names/male_names.py`, a script that
samples new names from a small trained character model. The vocabulary `possible_chars` is an
ordered list of characters. `encode` maps a character to its first position in that list. A
three-character context window starts as `'...'`. The script asks the model for a next index,
decodes it, and either stops on the boundary `'.'` or appends the character to the name and
slides the window. A batch driver repeats this `n_names` times and collects the names in order.

The scorer and the sampler are replaced by a finite stream of drawn indices (`draws:
seq<nat>`). These are the values `torch.multinomial(...).item()` would return, one per turn
of the loop. The whole batch shares one stream: each name reads from the position where the
previous one stopped. The loop still encodes the window on every turn, because the scorer
takes it as input, and that is the point where a vocabulary without `'.'` fails.

Modules:

- `Errors` (errors.dfy): `Error` (`UnknownCharacter`, `IndexOutOfRange`, `DrawsExhausted`),
  `Result` and `Option`.
- `Vocabulary` (vocabulary.dfy): `IndexOf` (`encode`), `CharAt` (`possible_chars[i]`),
  `EncodeWindow` (the list comprehension on line 27), and the round trips between them.
- `Generation` (generation.dfy): the window slide, a loop-free specification `NameSpec` of one
  name, and the imperative `GenerateName` with its `while true` loop, proved equal to it.
- `Batch` (batch.dfy): the specification `BatchSpec` of a batch, the imperative
  `GenerateBatch` with its `for` loop, proved equal to it, and lemmas about order and
  independence.

What the script checks and what it does not:

- It never validates the vocabulary when it loads it. A vocabulary without `'.'` fails only
  when `encode('.')` is called on the initial window, before anything is drawn. An empty
  vocabulary fails the same way, with `UnknownCharacter('.')`.
- It puts no bound on the length of a name. The model's `DrawsExhausted` means only that the
  finite stream ran out before a boundary draw.
- `encode` is a linear search for the first occurrence. With repeated characters, the round
  trip from index to character to index holds only for first occurrences (`IndexOfCharAt`
  asks for a vocabulary without repetitions).

## Model

| member | source | states |
|---|---|---|
| Vocabulary.IndexOf | laboratory/male_names/male_names.py:14-15 | `encode` succeeds exactly when the character is in the vocabulary; it then returns a position holding that character with no earlier occurrence, and otherwise fails with UnknownCharacter for that character |
| Vocabulary.CharAt | laboratory/male_names/male_names.py:35 | indexing succeeds exactly for positions below the vocabulary's length and yields the character at that position; otherwise IndexOutOfRange for that index |
| Vocabulary.CharAtIndexOf | laboratory/male_names/male_names.py:14-15 | for every character of the vocabulary, decoding its encoding gives the character back |
| Vocabulary.IndexOfCharAt | laboratory/male_names/male_names.py:35 | in a vocabulary without repeated characters, encoding the character at a position gives that position back |
| Vocabulary.EncodeWindow | laboratory/male_names/male_names.py:27 | encoding the window succeeds exactly when every window character is in the vocabulary, and then gives, for each character in order, its `encode` index (the first position holding it), which decodes back to it; a failure names a window character that is missing from the vocabulary |
| Generation.WindowIsSuffix | laboratory/male_names/male_names.py:39 | repeated sliding keeps the window's length and leaves the last characters of start window plus accepted characters |
| Generation.NameWindow | laboratory/male_names/male_names.py:23-39 | starting from `'...'`, the window has length 3 after every slide and equals the last 3 characters of `'...' + name` |
| Generation.StopAt | laboratory/male_names/male_names.py:34-37 | finds the first draw at or after a position that ends the loop (the boundary, or no vocabulary position); every draw before it is accepted, and None means that no draw ends the loop |
| Generation.Decode | laboratory/male_names/male_names.py:35-40 | the accepted characters of a range of draws, in draw order, one per draw; none of them is the boundary, all are in the vocabulary |
| Generation.NameSpec | laboratory/male_names/male_names.py:23-40 | a successful name consumes at least the boundary draw and stays inside the stream |
| Generation.NameSpecErrors | laboratory/male_names/male_names.py:26-37 | a name fails with UnknownCharacter('.') exactly when the boundary is not in the vocabulary; it runs out of draws exactly when no later draw ends the loop; an IndexOutOfRange names the first stopping draw, which is no vocabulary position |
| Generation.NameSpecOk | laboratory/male_names/male_names.py:34-40 | a generated name ends at a boundary draw that is not appended; its characters are those of the earlier draws in draw order, none is `'.'`, all are in the vocabulary |
| Generation.NameSpecWindow | laboratory/male_names/male_names.py:39 | the final window of a generated name has length 3 and is the one the successive slides `content_block[1:] + next_char` of its characters produce |
| Generation.NameFromDraws | laboratory/male_names/male_names.py:34-40 | conversely, accepted draws followed by a boundary draw yield exactly the decoded characters of those draws, and the next name starts right after the boundary draw |
| Generation.StopAtSkips | laboratory/male_names/male_names.py:36-40 | accepted draws do not change where the loop stops |
| Generation.SlideStep | laboratory/male_names/male_names.py:39-40 | sliding the window by the character appended to the name keeps the window the last 3 characters of `'...' + name` |
| Generation.NameSpecAt | laboratory/male_names/male_names.py:34-37 | after accepting the draws up to a position, the draw there decides the outcome: out of draws, IndexOutOfRange, or the name with its window |
| Generation.EncodeNameWindow | laboratory/male_names/male_names.py:23-27 | the window of a name built from vocabulary characters encodes when `'.'` is in the vocabulary; the initial window of a vocabulary without `'.'` fails with UnknownCharacter('.') |
| Generation.GenerateName | laboratory/male_names/male_names.py:23-40 | the `while true` loop with its window slide (`Slide`, line 39) and name append returns exactly the loop-free specification of the name, its final window and its stream position, errors included |
| Batch.BatchSpec | laboratory/male_names/male_names.py:20-41 | zero names give an empty list and consume no draws; a successful batch of n names has exactly n entries and consumes at least one draw per name |
| Batch.BatchErrorPersists | laboratory/male_names/male_names.py:22-41 | once generating a name fails, every larger batch fails with the same error (no partial batch) |
| Batch.BatchStep | laboratory/male_names/male_names.py:22-41 | a batch of n names is the batch of n - 1 names with one more name appended at the end, generated from where those stopped |
| Batch.BatchEntry | laboratory/male_names/male_names.py:22-24 | entry i of a batch is the first i entries' continuation: the name generated from a fresh `'...'` window and an empty name at the stream position where the earlier names stopped, and the first i entries form the batch of i names |
| Batch.BatchNamesClean | laboratory/male_names/male_names.py:36-41 | no name of a batch contains `'.'`, and every character of every name is in the vocabulary |
| Batch.AllBoundaryDraws | laboratory/male_names/male_names.py:22-41 | when every draw is the boundary, a batch of n names is n empty names and uses exactly n draws |
| Batch.GenerateBatch | laboratory/male_names/male_names.py:20-41 | the `for` loop that appends each generated name returns exactly the batch specification, errors included |

## Left out

- Loading the tensors V, W1, b1, W2, b2 and reading `possible_chars.txt` (lines 5-12): file
  I/O. The vocabulary is a parameter.
- The embedding lookup, the matrix products, `tanh` and the softmax (lines 18, 28-33):
  floating-point tensor numerics in a library that is not part of this model. The encoded
  window is computed, and then only its failure case matters.
- `torch.multinomial` (line 34): randomness. The model takes the drawn indices as a finite
  input stream, one stream for the whole batch. It does not model probabilities.
- `sys.argv` parsing (line 19) and `print` (line 43): command-line plumbing. `n_names` is a
  `nat` parameter, and the result is returned rather than printed.
- Termination: the source loop is unbounded (line 26). The model stops with `DrawsExhausted`
  when the finite stream ends. No claim is made that a boundary is ever drawn.
- `possible_chars` entries are lines of a file, so in Python they are strings. The model treats
  each entry as one character. A line of any other length (a blank line gives `''`, a longer
  line several characters) would change the window's length, and the model does not capture
  that.
- `Vocabulary.EncodeWindow`: its failure case is stated as "some missing window character".
  The source's left-to-right comprehension reports the first missing one, and the model does
  not state that.
