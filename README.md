# Sentiment analyser core, modelled in Dafny

The sentiment analyser reads a positive and a negative word lexicon and a set of hotel reviews
with user ratings. It then scores reviews by the balance of lexicon words they contain. Its data
lives in a hand-written growable array, `ResizableArray<T>`. This project models that container
and the analyses built on it, and proves what they compute. The modules are:

- `Ordering` (`ordering.dfy`): the strict total order the container's sort and search rely on
  (`operator<` of the element type), sortedness, and the facts about moving one element that
  insertion sort needs. It also defines the lexicographic order `LexLess` on strings and proves
  it a strict total order.
- `Containers` (`resizable_array.dfy`): `ResizableArray<T>` as a class over an `array<T>` with
  `capacity` and `size` fields. `Contents` is its ghost abstract value. The class has `Resize`,
  `Add`, `Get`, `GetSize`, `BinarySearch` and an in-place `InsertionSort`. The constructor's
  `invalid_argument` and `get`'s `out_of_range` are the `Error` values of a `Result`.
- `Text` (`text.dfy`): `cleanWord`, the plain lower-casing the batch scan uses, and the
  whitespace tokenisation that `stringstream >> word` performs.
- `Scoring` (`scoring.dfy`): the 1..5 sentiment score, its rounding and the
  Positive/Negative/Neutral label.
- `Analysis` (`analysis.dfy`): the per-review match (`countWordsInReview`) and the report built
  on it (`generateSentimentAnalysis`). Also the dataset scan that records lexicon indices
  (`countWordsInReviewBinary`, `performSemanticAnalysis`) and `countOccurrences`.

Behaviour of the program worth knowing:

- The per-review match files the cleaned words themselves. Only the batch scan records lexicon
  indices.
- A word found in both lexicons counts as positive only in the per-review match. The batch scan
  records it against both lexicons.
- The batch scan lower-cases a token but keeps its punctuation, so `Nice!` does not match `nice`
  there. The per-review match strips punctuation.

## Model

| member | source | states |
|---|---|---|
| Containers.ResizableArray.constructor | sentiment/main.cpp:40-46 | a new array is empty, has the given positive capacity, and satisfies the invariant `0 <= size <= capacity`, `capacity > 0` |
| Containers.Create | sentiment/main.cpp:40-46 | construction fails with `invalid_argument` exactly when the capacity is not positive; otherwise it gives an empty array of that capacity |
| Containers.ResizableArray.Resize | sentiment/main.cpp:27-36 | the buffer is replaced by a new one of twice the capacity; size and the elements in use are unchanged |
| Containers.ResizableArray.Add | sentiment/main.cpp:54-59 | the contents become the old contents followed by the new element; size grows by one; capacity doubles exactly when the array was full |
| Containers.ResizableArray.Get | sentiment/main.cpp:62-67 | the element at `index` when `0 <= index < size`, otherwise `out_of_range` |
| Containers.ResizableArray.GetSize | sentiment/main.cpp:70-72 | the number of elements in use |
| Containers.ResizableArray.BinarySearch | sentiment/main.cpp:75-91 | on contents sorted by a strict total order, the result is -1 exactly when the element is absent, and otherwise an index in range holding the element |
| Containers.ResizableArray.InsertionSort | sentiment/main.cpp:94-104 | the contents end up sorted and are a permutation of the old contents; contents that were already sorted are left unchanged |
| Containers.ResizableArray.InsertAt | sentiment/main.cpp:96-102 | one pass of the outer loop: with `data[0..i)` sorted, `data[i]` is moved down to some position `p <= i` with the elements in between shifted up one slot, `data[0..i]` ends sorted, `data[i+1..size)` is untouched and the elements are permuted |
| Ordering.SortedPermutationUnique | sentiment/main.cpp:94-104 | two sorted arrangements of the same multiset are equal, which is why sorting a sorted array changes nothing |
| Ordering.InsertionStep | sentiment/main.cpp:98-102 | shifting the larger elements up and dropping the key into the gap is moving the key down, extends the sorted prefix by one, leaves the later elements alone and permutes the elements |
| Ordering.LexLessIsStrictTotalOrder | sentiment/main.cpp:83 | string `operator<` (character-by-character lexicographic order) is irreflexive, transitive and total, as sort and search require |
| Text.ToLower | sentiment/main.cpp:188 | `tolower` turns an upper-case letter into the same letter of the alphabet in lower case, changes nothing else, and so keeps alphanumeric characters alphanumeric |
| Text.CleanWord | sentiment/main.cpp:184-192 | the result is no longer than the word and consists of lower-case letters and digits only |
| Text.CleanWordMembers | sentiment/main.cpp:184-192 | a character occurs in the cleaned word exactly when it is the lower-cased form of some alphanumeric character of the word |
| Text.CleanWordAppend | sentiment/main.cpp:184-192 | cleaning a concatenation is the concatenation of the cleaned parts, so order is preserved |
| Text.CleanWordFixesNormalized | sentiment/main.cpp:184-192 | a word already in lower-case alphanumeric form is returned unchanged |
| Text.CleanWordIdempotent | sentiment/main.cpp:184-192 | cleaning twice gives the same as cleaning once |
| Text.LowerAll | sentiment/main.cpp:332 | `transform(..., ::tolower)` keeps the length, leaves no upper-case letter, lower-cases each capital to the same letter and keeps every other character |
| Text.CleanWordOfAlnumIsLowerAll | sentiment/main.cpp:184-192 | on a token without punctuation, cleaning is the plain lower-casing of the batch scan |
| Text.NormalizationsDiffer | sentiment/main.cpp:332 | `Nice!` cleans to `nice` but lower-cases to `nice!`, so the two scans match different tokens |
| Text.WordLength | sentiment/main.cpp:218 | the length of the leading run of non-space characters, ended by a space or the end of text |
| Text.Tokens | sentiment/main.cpp:213-218 | every token `stringstream >> word` extracts is non-empty and free of whitespace |
| Text.TokensCoverText | sentiment/main.cpp:213-218 | the tokens, written one after the other, are exactly the non-whitespace characters of the text in order: none is lost, invented or reordered |
| Text.TokensSplitAtSpace | sentiment/main.cpp:213-218 | any whitespace character (space, tab, newline, ...) separates tokens: the tokens of `a`, a whitespace character and `b` are the tokens of `a` followed by those of `b` |
| Text.TokensOfJoinWords | sentiment/main.cpp:329-331 | tokenising words joined by spaces gives back exactly those words, in order |
| Scoring.CalculateSentimentScore | sentiment/main.cpp:200-209 | the score is exactly 3 when no word matched |
| Scoring.ScoreIsShareOfPositives | sentiment/main.cpp:200-209 | once a word matched, the score is 1 plus 4 times the share of positive matches |
| Scoring.ScoreInRange | sentiment/main.cpp:200-209 | for counts that are not negative, the score lies in [1, 5] |
| Scoring.ScoreOfBalance | sentiment/main.cpp:200-209 | equal positive and negative counts give 3 |
| Scoring.ScoreOfOneSided | sentiment/main.cpp:200-209 | only positive matches give 5; only negative matches give 1 |
| Scoring.ScoreMonotonic | sentiment/main.cpp:204-208 | for a fixed number of matches, the score strictly increases with the balance of positive over negative |
| Scoring.RoundSentimentScore | sentiment/main.cpp:195-197 | the result is the nearest integer, with halves rounded away from zero |
| Scoring.RoundedScoreInRange | sentiment/main.cpp:195-197 | a score in [1, 5] rounds to an integer in 1..5 |
| Scoring.SentimentRating | sentiment/main.cpp:259-267 | the label of a rounded score: Positive exactly from 4 up, Negative exactly up to 2, Neutral exactly for 3 |
| Scoring.RatingOfScore | sentiment/main.cpp:259-267 | after rounding, the label of any score is Positive exactly from 3.5 up, Negative exactly below 2.5, and Neutral in between |
| Scoring.RatingOfCounts | sentiment/main.cpp:253-267 | from the counts alone: Positive exactly when some word matched and `3p >= 5n`, Negative exactly when `5p < 3n`, otherwise Neutral |
| Scoring.RoundingExamples | sentiment/main.cpp:195-197 | 4.6 rounds to 5 (Positive) and the tie 2.5 rounds to 3 (Neutral) |
| Analysis.MatchesMembers | sentiment/main.cpp:219-229 | a word is among one polarity's matches exactly when some token cleans to it and the positive-first lookup files it under that polarity |
| Analysis.MatchesPartition | sentiment/main.cpp:218-230 | each token lands in exactly one of positive, negative or neither |
| Analysis.FileWord | sentiment/main.cpp:222-229 | the lookup of one cleaned word returns its polarity, checking positive first; only that polarity's list grows, by that word |
| Analysis.CountWordsInReview | sentiment/main.cpp:212-231 | both counts start at 0; each found list gains exactly the cleaned matches of its polarity in token order; each count equals the number of words its list gained |
| Analysis.HitsMembers | sentiment/main.cpp:331-341 | a word is among one lexicon's hits exactly when that lexicon holds it and some token lower-cases to it, whatever the other lexicon holds |
| Analysis.PrecedenceVersusIndependence | sentiment/main.cpp:222-229 | for every word of both lexicons and every review: it is never a negative match, it is a positive match exactly when some token cleans to it, and it is a hit of each lexicon exactly when some token lower-cases to it |
| Analysis.RecordHit | sentiment/main.cpp:333-340 | one lexicon lookup: -1 exactly when the word is absent; otherwise an index holding the word, which is appended to the list |
| Analysis.CountWordsInReviewBinary | sentiment/main.cpp:328-342 | each index list keeps its old entries and gains, in token order, one index per lower-cased token found in that lexicon, each naming a slot that holds the token |
| Analysis.PerformSemanticAnalysis | sentiment/main.cpp:345-352 | the index lists gain the located hits of all reviews' tokens, review after review |
| Analysis.CountOccurrences | sentiment/main.cpp:298-306 | the number of entries equal to `index` |
| Analysis.OccurrencesCountWord | sentiment/main.cpp:298-315 | when the lexicon has no duplicates, the count of index `k` in the recorded list is the number of times the word at `k` was found |
| Analysis.MatchReview | sentiment/main.cpp:244-251 | two new, empty found lists, filled by the per-review match |
| Analysis.GenerateSentimentAnalysis | sentiment/main.cpp:235-293 | an invalid number exactly when it is outside 1..size. Otherwise the report holds the matched words and counts, the score rounded into 1..5, its label (also given in terms of the counts alone) and the user rating, or `out_of_range` when there is no rating at that index |

## Left out

- File loading (`loadWordsFromFile`, the CSV and regex parsing of `loadReviewsAndRatingsFromCSV`, and the `totalWords` count it produces). This is I/O and depends on `std::regex`.
- `clearScreen`, `displayWordsWithOccurrences`, `displaySummary`, `displayMenu` and `main`. These are console output, prompts and `stoi` input checks.
- The timers around the analyses. They are observed, never used.
- The destructor and the `new`/`delete` memory management. Allocation failure is not modelled.
- The score is exact `real` arithmetic. IEEE `double` rounding error is not modelled.
- `isalnum`, `isspace` and `tolower` are modelled for the "C" locale on ASCII characters only.
- Containers.ResizableArray.Resize: does not model signed 32-bit overflow of `capacity * 2`; integers are unbounded.
- Containers.ResizableArray.BinarySearch: does not model overflow of `(low + high) / 2`. It takes the element order as a parameter `lt` standing for `operator<`, which it requires to be a strict total order. `operator==` is Dafny equality.
- Containers.ResizableArray.InsertionSort: `data[j] > key` is modelled as `lt(key, data[j])`, which is what `operator>` means for `std::string`. The loop is split at its inner loop into `InsertAt`.
- Analysis.CountWordsInReview: requires the found lists to be distinct from each other and from the lexicons. The program always passes separate arrays; aliasing among them is not modelled.
- Analysis.CountWordsInReviewBinary: requires the two index lists to be separate from each other and from the lexicons and reviews, as the program always passes them. It also performs each lexicon's search and append together (`RecordHit`), whereas the source makes both searches before either append. The lists are separate, so the outcome is the same.
- Analysis.GenerateSentimentAnalysis: the console report and the timing are not produced. An `out_of_range` from the user-rating lookup is returned in the report instead of being thrown.
- The lexicons must be sorted by `LexLess` wherever they are searched. The program sorts them with `insertionSort` right after loading them.
