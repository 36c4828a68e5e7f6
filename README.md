# Language model probability tables, in Dafny

This project models the probability machinery of a character-level Markov
language model (`LanguageModel.java`). A frequency table is an ordered list
of `CharData` entries `(chr, count, p, cp)`. Two operations work on it:

- `calculateProbabilities` makes two passes over the list. The first sums the
  counts into a Java `int`. The second sets each entry's probability
  `p = count / total` and its cumulative probability `cp = previous cp + p`,
  in place and in list order.
- `getRandomChar` draws `r` in [0, 1) and returns the character of the first
  entry, in list order, whose `cp` exceeds `r`. It throws
  `IndexOutOfBoundsException` when no entry does.

Layout:

- `java_int.dfy` (module `JavaInt`): Java's 32-bit `int` and the wrap-around
  of `totalChars += count`.
- `distribution.dfy` (module `Distribution`): the meaning of a finalized
  table in exact arithmetic. `Finalized(counts, ps, cps)` says that `ps` holds
  the shares of the stored total and `cps` their running sums. `FirstAbove` is
  the first-match lookup. The property lemmas are here too.
- `language_model.dfy` (module `LanguageModel`): the entries and the two
  imperative operations, proved against `Distribution`.
- `wrappers.dfy` (module `Wrappers`): `Option`, and a `Result` that carries
  either a return value or the thrown Java exception.

Modelling choices:

- The list is an `array<CharData>` that is updated in place. Each entry is a
  `CharData` record.
- `double` is modelled as exact `real`.
- The random draw `r` is a parameter of `GetRandomChar`.
- The first pass of `calculateProbabilities` is its own method,
  `TotalCount`, which `CalculateProbabilities` calls. It is the same loop as
  in the source; splitting it keeps each proof small.
- Where the design description of the system and the code disagree, the model follows
  the code:
  - The design says sampling should fall back to the last entry. The
    code throws when no `cp` exceeds `r`, and so does `GetRandomChar`.
  - The design says every count is at least 1. The code accepts any
    `int` count, and so does the model. Non-negativity is a hypothesis of the
    lemmas that need it.

## Model

| member | source | states |
|---|---|---|
| `LanguageModel.TotalCount` | LanguageModel.java:42-47 | The first pass returns the sum of all counts in list order, wrapped to a Java `int` exactly as `totalChars += current.count` wraps it. |
| `LanguageModel.CalculateProbabilities` | LanguageModel.java:41-57 | Afterwards the table is `Finalized`: every `p` is its count over the stored total, and every `cp` is the running sum of the `p` values in list order, starting from 0. Every `chr` and `count` is unchanged. An empty list needs no nonzero total, so no division happens. |
| `LanguageModel.GetRandomChar` | LanguageModel.java:60-70 | Returns `Ok(chr)` of the first entry with `r < cp` (`FirstAbove`). Returns the thrown `IndexOutOfBoundsException("not suppose to get here")` when there is no such entry. Any returned character is one of the list's `chr` values. On a finalized non-empty table whose total fits in an `int`, any `r < 1` returns a character, so the throw cannot happen. Nothing is modified. |
| `JavaInt.Wrap` | LanguageModel.java:43-46 | The `int` stored for an exact integer differs from it by a multiple of 2^32, and equals it when it is in range. |
| `JavaInt.WrapAdd` | LanguageModel.java:46 | Adding to a wrapped accumulator gives the wrap of the exact running sum. This is why one wrap of the total describes the whole first pass. |
| `Distribution.Total` | LanguageModel.java:43-47 | The exact sum of the counts in list order. It is non-negative when every count is. |
| `Distribution.Cumulative` | LanguageModel.java:49-55 | The running sums, starting from `prevCp = 0`: the first `cp` is the first `p`, and each later `cp` is the previous `cp` plus its own `p`. |
| `Distribution.CumulativeIsPrefixSum` | LanguageModel.java:49-55 | The `cp` at index i equals the sum of `p` over entries 0..i. |
| `Distribution.FinalizedSum` | LanguageModel.java:43-55 | In a finalized non-empty table, the `p` values sum to the exact total over the stored `int` total. The last `cp` equals that sum. |
| `Distribution.FinalizedSumIsOne` | LanguageModel.java:43-55 | When the total fits in an `int`, the `p` values of a finalized non-empty table sum to exactly 1, and the last `cp` is exactly 1. |
| `Distribution.CumulativeGrows` | LanguageModel.java:49-55 | Running sums of non-negative terms never decrease. |
| `Distribution.FinalizedNonDecreasing` | LanguageModel.java:49-55 | With non-negative counts whose total fits in an `int`, `cp` never decreases along the list, and every `cp` lies in [0, 1]. |
| `Distribution.FirstAbove` | LanguageModel.java:62-68 | Gives the index of the first entry with `r < cp`; every earlier entry has `cp <= r`. Gives `None` exactly when every `cp` is at most `r`. |
| `Distribution.SelectionInterval` | LanguageModel.java:61-67 | When `cp` never decreases and `r >= 0`, entry i is selected exactly when `cp[i-1] <= r < cp[i]`, taking `cp[-1] = 0`. |
| `Distribution.FinalizedSelection` | LanguageModel.java:53-67 | In a finalized table with non-negative counts whose total fits in an `int`, entry i is selected by `r >= 0` exactly when `cp[i-1] <= r < cp[i]`. That interval's width is `p[i]`, the frequency a large sample of draws relies on. |
| `Distribution.FinalizedDrawSelects` | LanguageModel.java:61-69 | On a finalized non-empty table whose total fits in an `int`, every draw `r < 1` selects some entry. |

## Left out

- `train` (LanguageModel.java:35-37) and `generate` (LanguageModel.java:79-82) are stubs in the source: one is empty and the other returns `""`. Modelling them would invent code. Reading the corpus file is I/O.
- The constructors and `java.util.Random` (LanguageModel.java:19-32) are left out. The random source is an outside collaborator, so the draw is passed to `GetRandomChar` as `r`.
- `toString` (LanguageModel.java:85-92) is left out. It depends on `HashMap` iteration order and on `List.toString`, and neither is part of this model.
- `main` (LanguageModel.java:94-145) is console output around an empirical frequency test. `FinalizedSelection` states the property it samples. The list-building `List.update` it calls is not part of this model.
- `List`, `ListIterator` and `CharData` are not part of this model. The list is modelled as an array of `CharData` records that is traversed in order with `listIterator(0)`. Entry objects shared with other lists, or appearing twice in one list, are not modelled.
- IEEE-754 rounding is not modelled, because `double` is exact `real`. Whether the stored last `cp` reaches exactly 1.0 after rounding is outside the model.
- LanguageModel.CalculateProbabilities: requires a nonzero stored total for a non-empty list. In Java, 0/0 and x/0 give NaN and Infinity, which exact `real` arithmetic cannot represent.
