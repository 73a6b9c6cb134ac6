/** The analyses the program runs over reviews with the two sorted word lexicons: the
    per-review match of cleaned words (`countWordsInReview`) and the report built on it
    (`generateSentimentAnalysis`), and the whole-dataset scan that records the lexicon index of
    every lower-cased word found (`countWordsInReviewBinary`, `performSemanticAnalysis`) with the
    count of one index among those records (`countOccurrences`). */
module Analysis {
  import opened Ordering
  import opened Containers
  import opened Text
  import opened Scoring

  /** The list `countWordsInReview` files a cleaned word under: the positive lexicon is consulted
      first and the negative one only for a word that is not positive; `Neutral` stands for
      neither. */
  function Classify(word: string, positiveWords: seq<string>, negativeWords: seq<string>): Sentiment {
    if word in positiveWords then Positive
    else if word in negativeWords then Negative
    else Neutral
  }

  /** The cleaned words of `tokens` that `Classify` files under `polarity`, in token order. */
  function Matches(tokens: seq<string>, positiveWords: seq<string>, negativeWords: seq<string>, polarity: Sentiment): seq<string> {
    if tokens == [] then []
    else
      var w := CleanWord(tokens[|tokens| - 1]);
      Matches(tokens[..|tokens| - 1], positiveWords, negativeWords, polarity)
        + (if Classify(w, positiveWords, negativeWords) == polarity then [w] else [])
  }

  /** A word is among the matches of one polarity exactly when some token cleans to it and the
      word is filed under that polarity: in particular a word of both lexicons is only ever a
      positive match. */
  lemma {:induction false} MatchesMembers(tokens: seq<string>, positiveWords: seq<string>, negativeWords: seq<string>,
                                          polarity: Sentiment, w: string)
    ensures w in Matches(tokens, positiveWords, negativeWords, polarity)
        <==> Classify(w, positiveWords, negativeWords) == polarity
             && exists k :: 0 <= k < |tokens| && CleanWord(tokens[k]) == w
  {
    if tokens != [] {
      var init := tokens[..|tokens| - 1];
      MatchesMembers(init, positiveWords, negativeWords, polarity, w);
      if exists k :: 0 <= k < |init| && CleanWord(init[k]) == w {
        var k :| 0 <= k < |init| && CleanWord(init[k]) == w;
        assert tokens[k] == init[k];
      }
      if exists k :: 0 <= k < |tokens| && CleanWord(tokens[k]) == w {
        var k :| 0 <= k < |tokens| && CleanWord(tokens[k]) == w;
        if k < |init| {
          assert init[k] == tokens[k];
        }
      }
    }
  }

  /** Every token lands in exactly one of the three lists, so the positive and negative counts
      together never exceed the number of words in the review. */
  lemma {:induction false} MatchesPartition(tokens: seq<string>, positiveWords: seq<string>, negativeWords: seq<string>)
    ensures |Matches(tokens, positiveWords, negativeWords, Positive)|
          + |Matches(tokens, positiveWords, negativeWords, Negative)|
          + |Matches(tokens, positiveWords, negativeWords, Neutral)| == |tokens|
  {
    if tokens != [] {
      MatchesPartition(tokens[..|tokens| - 1], positiveWords, negativeWords);
    }
  }

  /** Taking one more token adds its cleaned word to the list of its polarity (here after the
      words `before` the scan) and to no other. */
  lemma MatchesStep(tokens: seq<string>, i: int, positiveWords: seq<string>, negativeWords: seq<string>,
                    polarity: Sentiment, before: seq<string>)
    requires 0 <= i < |tokens|
    ensures var w := CleanWord(tokens[i]);
            var step := if Classify(w, positiveWords, negativeWords) == polarity then [w] else [];
            && Matches(tokens[..i + 1], positiveWords, negativeWords, polarity)
               == Matches(tokens[..i], positiveWords, negativeWords, polarity) + step
            && before + Matches(tokens[..i + 1], positiveWords, negativeWords, polarity)
               == before + Matches(tokens[..i], positiveWords, negativeWords, polarity) + step
  {
    assert tokens[..i + 1][..i] == tokens[..i];
  }

  /** The body of `countWordsInReview`'s loop for one cleaned word: binary search in the
      positive lexicon and, only when that fails, in the negative one; a word found is appended
      to that lexicon's list. The result says which list, if any, grew. */
  method FileWord(word: string, positiveWords: ResizableArray<string>, negativeWords: ResizableArray<string>,
                  positiveWordsFound: ResizableArray<string>, negativeWordsFound: ResizableArray<string>)
    returns (polarity: Sentiment)
    requires positiveWords.Valid() && negativeWords.Valid()
    requires positiveWordsFound.Valid() && negativeWordsFound.Valid()
    requires Sorted(LexLess, positiveWords.Contents) && Sorted(LexLess, negativeWords.Contents)
    requires positiveWordsFound.Repr !! negativeWordsFound.Repr
    requires positiveWordsFound.Repr !! positiveWords.Repr && positiveWordsFound.Repr !! negativeWords.Repr
    requires negativeWordsFound.Repr !! positiveWords.Repr && negativeWordsFound.Repr !! negativeWords.Repr
    modifies positiveWordsFound.Repr, negativeWordsFound.Repr
    ensures polarity == Classify(word, positiveWords.Contents, negativeWords.Contents)
    ensures positiveWordsFound.Valid() && fresh(positiveWordsFound.Repr - old(positiveWordsFound.Repr))
    ensures negativeWordsFound.Valid() && fresh(negativeWordsFound.Repr - old(negativeWordsFound.Repr))
    ensures positiveWordsFound.Repr !! negativeWordsFound.Repr
    ensures positiveWordsFound.Contents == old(positiveWordsFound.Contents) + (if polarity == Positive then [word] else [])
    ensures negativeWordsFound.Contents == old(negativeWordsFound.Contents) + (if polarity == Negative then [word] else [])
  {
    LexLessIsStrictTotalOrder();
    var posIndex := positiveWords.BinarySearch(word, LexLess);
    if posIndex != -1 {
      positiveWordsFound.Add(word);
      return Positive;
    }
    var negIndex := negativeWords.BinarySearch(word, LexLess);
    if negIndex != -1 {
      negativeWordsFound.Add(word);
      return Negative;
    }
    return Neutral;
  }

  /** `countWordsInReview`: each word `stringstream` extracts from `review` is cleaned and
      looked up by binary search, first in the positive and, failing that, in the negative
      lexicon; a word found is appended to that polarity's list and counts once. Both counts start
      from 0. */
  method CountWordsInReview(review: string,
                            positiveWords: ResizableArray<string>, negativeWords: ResizableArray<string>,
                            positiveWordsFound: ResizableArray<string>, negativeWordsFound: ResizableArray<string>)
    returns (positiveCount: int, negativeCount: int)
    requires positiveWords.Valid() && negativeWords.Valid()
    requires positiveWordsFound.Valid() && negativeWordsFound.Valid()
    requires Sorted(LexLess, positiveWords.Contents) && Sorted(LexLess, negativeWords.Contents)
    requires positiveWordsFound.Repr !! negativeWordsFound.Repr
    requires positiveWordsFound.Repr !! positiveWords.Repr && positiveWordsFound.Repr !! negativeWords.Repr
    requires negativeWordsFound.Repr !! positiveWords.Repr && negativeWordsFound.Repr !! negativeWords.Repr
    modifies positiveWordsFound.Repr, negativeWordsFound.Repr
    ensures positiveWordsFound.Valid() && fresh(positiveWordsFound.Repr - old(positiveWordsFound.Repr))
    ensures negativeWordsFound.Valid() && fresh(negativeWordsFound.Repr - old(negativeWordsFound.Repr))
    ensures positiveWordsFound.Contents
         == old(positiveWordsFound.Contents) + Matches(Tokens(review), positiveWords.Contents, negativeWords.Contents, Positive)
    ensures negativeWordsFound.Contents
         == old(negativeWordsFound.Contents) + Matches(Tokens(review), positiveWords.Contents, negativeWords.Contents, Negative)
    ensures positiveCount == |Matches(Tokens(review), positiveWords.Contents, negativeWords.Contents, Positive)|
    ensures negativeCount == |Matches(Tokens(review), positiveWords.Contents, negativeWords.Contents, Negative)|
  {
    ghost var P, N := positiveWords.Contents, negativeWords.Contents;
    ghost var pf0, nf0 := positiveWordsFound.Contents, negativeWordsFound.Contents;
    var tokens := Tokens(review);
    positiveCount, negativeCount := 0, 0;
    var i := 0;
    while i < |tokens|
      invariant 0 <= i <= |tokens|
      invariant positiveWordsFound.Valid() && fresh(positiveWordsFound.Repr - old(positiveWordsFound.Repr))
      invariant negativeWordsFound.Valid() && fresh(negativeWordsFound.Repr - old(negativeWordsFound.Repr))
      invariant positiveWordsFound.Repr !! negativeWordsFound.Repr
      invariant positiveWordsFound.Repr !! positiveWords.Repr && positiveWordsFound.Repr !! negativeWords.Repr
      invariant negativeWordsFound.Repr !! positiveWords.Repr && negativeWordsFound.Repr !! negativeWords.Repr
      invariant positiveWordsFound.Contents == pf0 + Matches(tokens[..i], P, N, Positive)
      invariant negativeWordsFound.Contents == nf0 + Matches(tokens[..i], P, N, Negative)
      invariant positiveCount == |Matches(tokens[..i], P, N, Positive)|
      invariant negativeCount == |Matches(tokens[..i], P, N, Negative)|
    {
      var word := CleanWord(tokens[i]);
      var polarity := FileWord(word, positiveWords, negativeWords, positiveWordsFound, negativeWordsFound);
      if polarity == Positive {
        positiveCount := positiveCount + 1;
      } else if polarity == Negative {
        negativeCount := negativeCount + 1;
      }
      MatchesStep(tokens, i, P, N, Positive, pf0);
      MatchesStep(tokens, i, P, N, Negative, nf0);
      i := i + 1;
    }
    assert tokens[..i] == tokens;
  }

  /** The lower-cased words of `tokens` that `lexicon` contains, in token order: what
      `countWordsInReviewBinary` looks up and finds. */
  function Hits(tokens: seq<string>, lexicon: seq<string>): seq<string> {
    if tokens == [] then []
    else
      var w := LowerAll(tokens[|tokens| - 1]);
      Hits(tokens[..|tokens| - 1], lexicon) + (if w in lexicon then [w] else [])
  }

  lemma HitsStep(tokens: seq<string>, i: int, lexicon: seq<string>)
    requires 0 <= i < |tokens|
    ensures Hits(tokens[..i + 1], lexicon)
         == Hits(tokens[..i], lexicon) + (if LowerAll(tokens[i]) in lexicon then [LowerAll(tokens[i])] else [])
  {
    assert tokens[..i + 1][..i] == tokens[..i];
  }

  /** A word is among the hits exactly when the lexicon holds it and some token lower-cases to
      it; whether the other lexicon holds it plays no part. */
  lemma {:induction false} HitsMembers(tokens: seq<string>, lexicon: seq<string>, w: string)
    ensures w in Hits(tokens, lexicon)
        <==> w in lexicon && exists k :: 0 <= k < |tokens| && LowerAll(tokens[k]) == w
  {
    if tokens != [] {
      var init := tokens[..|tokens| - 1];
      HitsMembers(init, lexicon, w);
      if exists k :: 0 <= k < |init| && LowerAll(init[k]) == w {
        var k :| 0 <= k < |init| && LowerAll(init[k]) == w;
        assert tokens[k] == init[k];
      }
      if exists k :: 0 <= k < |tokens| && LowerAll(tokens[k]) == w {
        var k :| 0 <= k < |tokens| && LowerAll(tokens[k]) == w;
        if k < |init| {
          assert init[k] == tokens[k];
        }
      }
    }
  }

  /** A word of both lexicons: the per-review match files it as positive only, while the
      dataset scan records it against both lexicons, each time some token lower-cases to it. */
  lemma PrecedenceVersusIndependence(tokens: seq<string>, positiveWords: seq<string>, negativeWords: seq<string>,
                                     w: string)
    requires w in positiveWords && w in negativeWords
    ensures w !in Matches(tokens, positiveWords, negativeWords, Negative)
    ensures w in Matches(tokens, positiveWords, negativeWords, Positive)
        <==> exists k :: 0 <= k < |tokens| && CleanWord(tokens[k]) == w
    ensures w in Hits(tokens, positiveWords) <==> exists k :: 0 <= k < |tokens| && LowerAll(tokens[k]) == w
    ensures w in Hits(tokens, negativeWords) <==> exists k :: 0 <= k < |tokens| && LowerAll(tokens[k]) == w
  {
    MatchesMembers(tokens, positiveWords, negativeWords, Negative, w);
    MatchesMembers(tokens, positiveWords, negativeWords, Positive, w);
    HitsMembers(tokens, positiveWords, w);
    HitsMembers(tokens, negativeWords, w);
  }

  /** `indices` names, position by position, a place in `lexicon` holding the word `words` has
      at that position. */
  ghost predicate Locates(indices: seq<int>, words: seq<string>, lexicon: seq<string>) {
    && |indices| == |words|
    && forall k :: 0 <= k < |indices| ==> 0 <= indices[k] < |lexicon| && lexicon[indices[k]] == words[k]
  }

  /** Looking up the words of two texts one after the other finds the hits of each in turn. */
  lemma {:induction false} HitsAppend(a: seq<string>, b: seq<string>, lexicon: seq<string>)
    ensures Hits(a + b, lexicon) == Hits(a, lexicon) + Hits(b, lexicon)
    decreases |b|
  {
    if b == [] {
      assert a + b == a;
    } else {
      assert (a + b)[..|a + b| - 1] == a + b[..|b| - 1];
      HitsAppend(a, b[..|b| - 1], lexicon);
    }
  }

  /** Locating two word lists one after the other locates their concatenation. */
  lemma LocatesAppend(i1: seq<int>, w1: seq<string>, i2: seq<int>, w2: seq<string>, lexicon: seq<string>)
    requires Locates(i1, w1, lexicon) && Locates(i2, w2, lexicon)
    ensures Locates(i1 + i2, w1 + w2, lexicon)
  {
    forall k | 0 <= k < |i1 + i2|
      ensures 0 <= (i1 + i2)[k] < |lexicon| && lexicon[(i1 + i2)[k]] == (w1 + w2)[k]
    {
      if k >= |i1| {
        assert (i1 + i2)[k] == i2[k - |i1|] && (w1 + w2)[k] == w2[k - |w1|];
      }
    }
  }

  /** `after` is `before` with entries appended that locate `words` in `lexicon`. */
  ghost predicate Extends(after: seq<int>, before: seq<int>, words: seq<string>, lexicon: seq<string>) {
    && |before| <= |after|
    && after[..|before|] == before
    && Locates(after[|before|..], words, lexicon)
  }

  /** Two extensions in a row are one extension by the words of both. */
  lemma ExtendsTwice(c0: seq<int>, c1: seq<int>, c2: seq<int>, w1: seq<string>, w2: seq<string>, lexicon: seq<string>)
    requires Extends(c1, c0, w1, lexicon) && Extends(c2, c1, w2, lexicon)
    ensures Extends(c2, c0, w1 + w2, lexicon)
  {
    var i1, i2 := c1[|c0|..], c2[|c1|..];
    assert c2 == c0 + i1 + i2 by {
      assert c1 == c0 + i1;
      assert c2 == c1 + i2;
    }
    assert c2[..|c0|] == c0;
    assert c2[|c0|..] == i1 + i2;
    LocatesAppend(i1, w1, i2, w2, lexicon);
  }

  /** One lookup of `word` whose outcome is `index`, as `RecordHit` reports it, extends the
      located indices by the index found, if any (here after the entries `c0` before the scan). */
  lemma LocatesStep(c0: seq<int>, indices: seq<int>, words: seq<string>, word: string, index: int,
                    lexicon: seq<string>)
    requires Locates(indices, words, lexicon)
    requires index == -1 <==> word !in lexicon
    requires index != -1 ==> 0 <= index < |lexicon| && lexicon[index] == word
    ensures var step := if index == -1 then [] else [index];
            && c0 + (indices + step) == c0 + indices + step
            && Locates(indices + step, words + (if word in lexicon then [word] else []), lexicon)
  {
    LocatesAppend(indices, words, if index == -1 then [] else [index], if word in lexicon then [word] else [], lexicon);
  }

  lemma LocatesExtends(c0: seq<int>, indices: seq<int>, words: seq<string>, lexicon: seq<string>)
    requires Locates(indices, words, lexicon)
    ensures Extends(c0 + indices, c0, words, lexicon)
  {
    assert (c0 + indices)[..|c0|] == c0 && (c0 + indices)[|c0|..] == indices;
  }

  /** The lines of `countWordsInReviewBinary` for one word and one lexicon: binary search for
      `word`, and when it is found append the index found to `counts`. */
  method RecordHit(word: string, lexicon: ResizableArray<string>, counts: ResizableArray<int>) returns (index: int)
    requires lexicon.Valid() && counts.Valid() && Sorted(LexLess, lexicon.Contents)
    requires counts.Repr !! lexicon.Repr
    modifies counts.Repr
    ensures counts.Valid() && fresh(counts.Repr - old(counts.Repr))
    ensures index == -1 <==> word !in lexicon.Contents
    ensures index != -1 ==> 0 <= index < |lexicon.Contents| && lexicon.Contents[index] == word
    ensures counts.Contents == old(counts.Contents) + (if index == -1 then [] else [index])
    ensures Extends(counts.Contents, old(counts.Contents), if word in lexicon.Contents then [word] else [], lexicon.Contents)
  {
    LexLessIsStrictTotalOrder();
    index := lexicon.BinarySearch(word, LexLess);
    if index != -1 {
      counts.Add(index);
      assert counts.Contents[|old(counts.Contents)|..] == [index];
    } else {
      assert counts.Contents[|old(counts.Contents)|..] == [];
    }
  }

  /** `countWordsInReviewBinary`: each word of `review` is lower-cased (punctuation is kept) and
      looked up in each lexicon on its own, so a word of both lexicons is recorded in both
      lists; the index binary search finds is appended to that lexicon's list. */
  method CountWordsInReviewBinary(review: string,
                                  positiveWords: ResizableArray<string>, posCounts: ResizableArray<int>,
                                  negativeWords: ResizableArray<string>, negCounts: ResizableArray<int>)
    requires positiveWords.Valid() && negativeWords.Valid() && posCounts.Valid() && negCounts.Valid()
    requires Sorted(LexLess, positiveWords.Contents) && Sorted(LexLess, negativeWords.Contents)
    requires posCounts.Repr !! negCounts.Repr
    requires posCounts.Repr !! positiveWords.Repr && posCounts.Repr !! negativeWords.Repr
    requires negCounts.Repr !! positiveWords.Repr && negCounts.Repr !! negativeWords.Repr
    modifies posCounts.Repr, negCounts.Repr
    ensures posCounts.Valid() && fresh(posCounts.Repr - old(posCounts.Repr))
    ensures negCounts.Valid() && fresh(negCounts.Repr - old(negCounts.Repr))
    ensures posCounts.Repr !! negCounts.Repr
    ensures Extends(posCounts.Contents, old(posCounts.Contents), Hits(Tokens(review), positiveWords.Contents), positiveWords.Contents)
    ensures Extends(negCounts.Contents, old(negCounts.Contents), Hits(Tokens(review), negativeWords.Contents), negativeWords.Contents)
  {
    ghost var P, N := positiveWords.Contents, negativeWords.Contents;
    ghost var p0, n0 := posCounts.Contents, negCounts.Contents;
    ghost var pidx: seq<int>, nidx: seq<int> := [], [];
    var tokens := Tokens(review);
    var i := 0;
    while i < |tokens|
      invariant 0 <= i <= |tokens|
      invariant posCounts.Valid() && fresh(posCounts.Repr - old(posCounts.Repr))
      invariant negCounts.Valid() && fresh(negCounts.Repr - old(negCounts.Repr))
      invariant posCounts.Repr !! negCounts.Repr
      invariant posCounts.Repr !! positiveWords.Repr && posCounts.Repr !! negativeWords.Repr
      invariant negCounts.Repr !! positiveWords.Repr && negCounts.Repr !! negativeWords.Repr
      invariant posCounts.Contents == p0 + pidx && Locates(pidx, Hits(tokens[..i], P), P)
      invariant negCounts.Contents == n0 + nidx && Locates(nidx, Hits(tokens[..i], N), N)
    {
      var word := LowerAll(tokens[i]);
      HitsStep(tokens, i, P);
      HitsStep(tokens, i, N);
      var posIndex := RecordHit(word, positiveWords, posCounts);
      var negIndex := RecordHit(word, negativeWords, negCounts);
      LocatesStep(p0, pidx, Hits(tokens[..i], P), word, posIndex, P);
      LocatesStep(n0, nidx, Hits(tokens[..i], N), word, negIndex, N);
      pidx := pidx + (if posIndex == -1 then [] else [posIndex]);
      nidx := nidx + (if negIndex == -1 then [] else [negIndex]);
      i := i + 1;
    }
    assert tokens[..i] == tokens;
    LocatesExtends(p0, pidx, Hits(tokens, P), P);
    LocatesExtends(n0, nidx, Hits(tokens, N), N);
  }

  /** The words of all reviews, review after review. */
  function ReviewTokens(reviews: seq<string>): seq<string> {
    if reviews == [] then []
    else ReviewTokens(reviews[..|reviews| - 1]) + Tokens(reviews[|reviews| - 1])
  }

  /** Scanning one more review extends the located hits by that review's hits. */
  lemma ReviewStep(R: seq<string>, i: int, lexicon: seq<string>, c0: seq<int>, before: seq<int>, after: seq<int>)
    requires 0 <= i < |R|
    requires Extends(before, c0, Hits(ReviewTokens(R[..i]), lexicon), lexicon)
    requires Extends(after, before, Hits(Tokens(R[i]), lexicon), lexicon)
    ensures Extends(after, c0, Hits(ReviewTokens(R[..i + 1]), lexicon), lexicon)
  {
    assert R[..i + 1][..i] == R[..i];
    HitsAppend(ReviewTokens(R[..i]), Tokens(R[i]), lexicon);
    ExtendsTwice(c0, before, after, Hits(ReviewTokens(R[..i]), lexicon), Hits(Tokens(R[i]), lexicon), lexicon);
  }

  /** `performSemanticAnalysis`: `countWordsInReviewBinary` on every review in turn, so the two
      lists gain the located lexicon hits of all the reviews' words. */
  method PerformSemanticAnalysis(reviews: ResizableArray<string>,
                                 positiveWords: ResizableArray<string>, posCounts: ResizableArray<int>,
                                 negativeWords: ResizableArray<string>, negCounts: ResizableArray<int>)
    requires reviews.Valid()
    requires positiveWords.Valid() && negativeWords.Valid() && posCounts.Valid() && negCounts.Valid()
    requires Sorted(LexLess, positiveWords.Contents) && Sorted(LexLess, negativeWords.Contents)
    requires posCounts.Repr !! negCounts.Repr
    requires posCounts.Repr !! positiveWords.Repr && posCounts.Repr !! negativeWords.Repr
    requires negCounts.Repr !! positiveWords.Repr && negCounts.Repr !! negativeWords.Repr
    requires posCounts.Repr !! reviews.Repr && negCounts.Repr !! reviews.Repr
    modifies posCounts.Repr, negCounts.Repr
    ensures posCounts.Valid() && fresh(posCounts.Repr - old(posCounts.Repr))
    ensures negCounts.Valid() && fresh(negCounts.Repr - old(negCounts.Repr))
    ensures Extends(posCounts.Contents, old(posCounts.Contents),
                    Hits(ReviewTokens(reviews.Contents), positiveWords.Contents), positiveWords.Contents)
    ensures Extends(negCounts.Contents, old(negCounts.Contents),
                    Hits(ReviewTokens(reviews.Contents), negativeWords.Contents), negativeWords.Contents)
  {
    ghost var R, P, N := reviews.Contents, positiveWords.Contents, negativeWords.Contents;
    ghost var p0, n0 := posCounts.Contents, negCounts.Contents;
    assert Extends(p0, p0, Hits(ReviewTokens(R[..0]), P), P) && Extends(n0, n0, Hits(ReviewTokens(R[..0]), N), N);
    var count := reviews.GetSize();
    var i := 0;
    while i < count
      invariant 0 <= i <= count == |R|
      invariant posCounts.Valid() && fresh(posCounts.Repr - old(posCounts.Repr))
      invariant negCounts.Valid() && fresh(negCounts.Repr - old(negCounts.Repr))
      invariant posCounts.Repr !! negCounts.Repr
      invariant posCounts.Repr !! positiveWords.Repr && posCounts.Repr !! negativeWords.Repr
      invariant negCounts.Repr !! positiveWords.Repr && negCounts.Repr !! negativeWords.Repr
      invariant posCounts.Repr !! reviews.Repr && negCounts.Repr !! reviews.Repr
      invariant Extends(posCounts.Contents, p0, Hits(ReviewTokens(R[..i]), P), P)
      invariant Extends(negCounts.Contents, n0, Hits(ReviewTokens(R[..i]), N), N)
    {
      var r := reviews.Get(i);
      var review := r.value;
      ghost var pc, nc := posCounts.Contents, negCounts.Contents;
      CountWordsInReviewBinary(review, positiveWords, posCounts, negativeWords, negCounts);
      ReviewStep(R, i, P, p0, pc, posCounts.Contents);
      ReviewStep(R, i, N, n0, nc, negCounts.Contents);
      i := i + 1;
    }
    assert R[..i] == R;
  }

  /** `countOccurrences`: how many entries of `indices` equal `index`. */
  method CountOccurrences(indices: ResizableArray<int>, index: int) returns (count: int)
    requires indices.Valid()
    ensures count == multiset(indices.Contents)[index]
  {
    count := 0;
    var size := indices.GetSize();
    var i := 0;
    while i < size
      invariant 0 <= i <= size == |indices.Contents|
      invariant count == multiset(indices.Contents[..i])[index]
    {
      var r := indices.Get(i);
      assert indices.Contents[..i + 1] == indices.Contents[..i] + [indices.Contents[i]];
      if r.value == index {
        count := count + 1;
      }
      i := i + 1;
    }
    assert indices.Contents[..i] == indices.Contents;
  }

  /** No word occurs twice in the lexicon. */
  ghost predicate NoDuplicates(lexicon: seq<string>) {
    forall i, j :: 0 <= i < j < |lexicon| ==> lexicon[i] != lexicon[j]
  }

  /** With a lexicon free of duplicates, the number of times index `k` was recorded is the number
      of times the word `lexicon[k]` was found: what the program lists as `word(count)`. */
  lemma {:induction false} OccurrencesCountWord(indices: seq<int>, words: seq<string>, lexicon: seq<string>, k: int)
    requires Locates(indices, words, lexicon) && NoDuplicates(lexicon)
    requires 0 <= k < |lexicon|
    ensures multiset(indices)[k] == multiset(words)[lexicon[k]]
  {
    if indices != [] {
      var m := |indices| - 1;
      var front, frontWords := indices[..m], words[..m];
      assert Locates(front, frontWords, lexicon) by {
        forall i | 0 <= i < m
          ensures 0 <= front[i] < |lexicon| && lexicon[front[i]] == frontWords[i]
        {
          assert front[i] == indices[i] && frontWords[i] == words[i];
        }
      }
      OccurrencesCountWord(front, frontWords, lexicon, k);
      var j := indices[m];
      assert indices == front + [j];
      assert words == frontWords + [lexicon[j]];
      assert multiset(indices) == multiset(front) + multiset{j};
      assert multiset(words) == multiset(frontWords) + multiset{lexicon[j]};
      if j < k {
        assert lexicon[j] != lexicon[k];
      } else if k < j {
        assert lexicon[k] != lexicon[j];
      }
    }
  }

  /** What `generateSentimentAnalysis` reports for a review, without its console output and
      timing: the review and its two lists of matched words with their counts, the rounded score
      and its polarity, and the user's rating (or the `out_of_range` that fetching it throws). */
  datatype Analysis =
    | InvalidReviewNumber
    | Report(review: string, positiveCount: int, negativeCount: int,
             positiveWordsFound: ResizableArray<string>, negativeWordsFound: ResizableArray<string>,
             roundedScore: int, rating: Sentiment, userRating: Result<int>)

  /** `generateSentimentAnalysis` for the 1-based `reviewNumber`. */
  method GenerateSentimentAnalysis(reviews: ResizableArray<string>, userRatings: ResizableArray<int>,
                                   positiveWords: ResizableArray<string>, negativeWords: ResizableArray<string>,
                                   reviewNumber: int)
    returns (a: Analysis)
    requires reviews.Valid() && userRatings.Valid() && positiveWords.Valid() && negativeWords.Valid()
    requires Sorted(LexLess, positiveWords.Contents) && Sorted(LexLess, negativeWords.Contents)
    ensures a.InvalidReviewNumber? <==> !(1 <= reviewNumber <= |reviews.Contents|)
    ensures a.Report? ==>
      && a.review == reviews.Contents[reviewNumber - 1]
      && a.positiveWordsFound.Valid() && fresh(a.positiveWordsFound.Repr)
      && a.negativeWordsFound.Valid() && fresh(a.negativeWordsFound.Repr)
      && a.positiveWordsFound.Contents == Matches(Tokens(a.review), positiveWords.Contents, negativeWords.Contents, Positive)
      && a.negativeWordsFound.Contents == Matches(Tokens(a.review), positiveWords.Contents, negativeWords.Contents, Negative)
      && a.positiveCount == |a.positiveWordsFound.Contents| && a.negativeCount == |a.negativeWordsFound.Contents|
      && a.roundedScore == RoundSentimentScore(CalculateSentimentScore(a.positiveCount, a.negativeCount))
      && 1 <= a.roundedScore <= 5
      && a.rating == SentimentRating(a.roundedScore)
      && a.rating == (if a.positiveCount > 0 && 3 * a.positiveCount >= 5 * a.negativeCount then Positive
                      else if 5 * a.positiveCount < 3 * a.negativeCount then Negative
                      else Neutral)
      && a.userRating == if reviewNumber - 1 < |userRatings.Contents| then Success(userRatings.Contents[reviewNumber - 1])
                         else Failure(OutOfRange)
  {
    var size := reviews.GetSize();
    if reviewNumber <= 0 || reviewNumber > size {
      return InvalidReviewNumber;
    }
    var r := reviews.Get(reviewNumber - 1);
    var review := r.value;
    var positiveWordsFound, negativeWordsFound, positiveCount, negativeCount := MatchReview(review, positiveWords, negativeWords);
    var sentimentScore := CalculateSentimentScore(positiveCount, negativeCount);
    var roundedSentimentScore := RoundSentimentScore(sentimentScore);
    var sentimentRating := SentimentRating(roundedSentimentScore);
    var userRating := userRatings.Get(reviewNumber - 1);
    ScoreInRange(positiveCount, negativeCount);
    RoundedScoreInRange(sentimentScore);
    RatingOfCounts(positiveCount, negativeCount);
    return Report(review, positiveCount, negativeCount, positiveWordsFound, negativeWordsFound,
                  roundedSentimentScore, sentimentRating, userRating);
  }

  /** The matching part of `generateSentimentAnalysis`: two new, empty lists of the default
      capacity, filled by `countWordsInReview`. */
  method MatchReview(review: string, positiveWords: ResizableArray<string>, negativeWords: ResizableArray<string>)
    returns (positiveWordsFound: ResizableArray<string>, negativeWordsFound: ResizableArray<string>,
             positiveCount: int, negativeCount: int)
    requires positiveWords.Valid() && negativeWords.Valid()
    requires Sorted(LexLess, positiveWords.Contents) && Sorted(LexLess, negativeWords.Contents)
    ensures positiveWordsFound.Valid() && fresh(positiveWordsFound.Repr)
    ensures negativeWordsFound.Valid() && fresh(negativeWordsFound.Repr)
    ensures positiveWordsFound.Contents == Matches(Tokens(review), positiveWords.Contents, negativeWords.Contents, Positive)
    ensures negativeWordsFound.Contents == Matches(Tokens(review), positiveWords.Contents, negativeWords.Contents, Negative)
    ensures positiveCount == |positiveWordsFound.Contents| && negativeCount == |negativeWordsFound.Contents|
  {
    positiveWordsFound := new ResizableArray<string>(DefaultCapacity);
    negativeWordsFound := new ResizableArray<string>(DefaultCapacity);
    positiveCount, negativeCount :=
      CountWordsInReview(review, positiveWords, negativeWords, positiveWordsFound, negativeWordsFound);
  }
}
