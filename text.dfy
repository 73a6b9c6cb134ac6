/** Word normalisation and tokenisation of review text. Characters are ASCII: `isalnum`,
    `isspace` and `tolower` are those of the "C" locale. */
module Text {

  /** `isspace`: space, tab, newline, vertical tab, form feed, carriage return. */
  predicate IsSpace(c: char) {
    c == ' ' || '\t' <= c <= '\r'
  }

  predicate IsUpper(c: char) {
    'A' <= c <= 'Z'
  }

  /** `isalnum`: a decimal digit or an ASCII letter. */
  predicate IsAlnum(c: char) {
    '0' <= c <= '9' || 'a' <= c <= 'z' || IsUpper(c)
  }

  /** `tolower`: upper-case letters map to lower case, everything else to itself. */
  function ToLower(c: char): (r: char)
    ensures !IsUpper(r)
    ensures IsAlnum(r) == IsAlnum(c)
    ensures !IsUpper(c) ==> r == c
    ensures IsUpper(c) ==> 'a' <= r <= 'z' && r as int - 'a' as int == c as int - 'A' as int
  {
    if IsUpper(c) then (c as int + ('a' as int - 'A' as int)) as char else c
  }

  /** The form `cleanWord` produces: lower-case letters and digits only. */
  predicate IsNormalized(w: string) {
    forall k :: 0 <= k < |w| ==> IsAlnum(w[k]) && !IsUpper(w[k])
  }

  /** `cleanWord`: the alphanumeric characters of `word`, lower-cased, in their original order.
      Written, like the source loop, as appending one character at a time. */
  function CleanWord(word: string): (r: string)
    ensures |r| <= |word|
    ensures IsNormalized(r)
  {
    if word == [] then []
    else
      var c := word[|word| - 1];
      CleanWord(word[..|word| - 1]) + (if IsAlnum(c) then [ToLower(c)] else [])
  }

  /** Cleaning distributes over concatenation: each character is kept or dropped on its own. */
  lemma {:induction false} CleanWordAppend(a: string, b: string)
    ensures CleanWord(a + b) == CleanWord(a) + CleanWord(b)
    decreases |b|
  {
    if b == [] {
      assert a + b == a;
    } else {
      var c := b[|b| - 1];
      assert (a + b)[..|a + b| - 1] == a + b[..|b| - 1];
      CleanWordAppend(a, b[..|b| - 1]);
    }
  }

  /** A word already in normal form is left as it is. */
  lemma {:induction false} CleanWordFixesNormalized(w: string)
    requires IsNormalized(w)
    ensures CleanWord(w) == w
  {
    if w != [] {
      CleanWordFixesNormalized(w[..|w| - 1]);
      assert w == w[..|w| - 1] + [w[|w| - 1]];
    }
  }

  /** Cleaning twice is the same as cleaning once. */
  lemma CleanWordIdempotent(w: string)
    ensures CleanWord(CleanWord(w)) == CleanWord(w)
  {
    CleanWordFixesNormalized(CleanWord(w));
  }

  /** Exactly the lower-cased alphanumeric characters of `w` occur in `CleanWord(w)`. */
  lemma {:induction false} CleanWordMembers(w: string, c: char)
    ensures c in CleanWord(w) <==> exists k :: 0 <= k < |w| && IsAlnum(w[k]) && ToLower(w[k]) == c
  {
    if w != [] {
      var init := w[..|w| - 1];
      CleanWordMembers(init, c);
      if exists k :: 0 <= k < |init| && IsAlnum(init[k]) && ToLower(init[k]) == c {
        var k :| 0 <= k < |init| && IsAlnum(init[k]) && ToLower(init[k]) == c;
        assert w[k] == init[k];
      }
      if exists k :: 0 <= k < |w| && IsAlnum(w[k]) && ToLower(w[k]) == c {
        var k :| 0 <= k < |w| && IsAlnum(w[k]) && ToLower(w[k]) == c;
        if k < |w| - 1 {
          assert init[k] == w[k];
        }
      }
    }
  }

  /** The lower-casing `std::transform(..., ::tolower)` that the batch matcher applies to each
      token: every character is kept. */
  function LowerAll(w: string): (r: string)
    ensures |r| == |w|
    ensures forall k :: 0 <= k < |r| ==> !IsUpper(r[k])
    ensures forall k :: 0 <= k < |w| && !IsUpper(w[k]) ==> r[k] == w[k]
    ensures forall k :: 0 <= k < |w| && IsUpper(w[k]) ==> r[k] as int - 'a' as int == w[k] as int - 'A' as int
  {
    seq(|w|, k requires 0 <= k < |w| => ToLower(w[k]))
  }

  /** On a token without punctuation the two normalisations agree; they differ exactly in
      whether non-alphanumeric characters are dropped. */
  lemma {:induction false} CleanWordOfAlnumIsLowerAll(w: string)
    requires forall k :: 0 <= k < |w| ==> IsAlnum(w[k])
    ensures CleanWord(w) == LowerAll(w)
  {
    if w != [] {
      CleanWordOfAlnumIsLowerAll(w[..|w| - 1]);
      assert LowerAll(w) == LowerAll(w[..|w| - 1]) + [ToLower(w[|w| - 1])];
    }
  }

  /** A punctuated token is matched as its bare word by `cleanWord` but kept whole by the
      lower-casing of the batch matcher. */
  lemma NormalizationsDiffer()
    ensures CleanWord("Nice!") == "nice"
    ensures LowerAll("Nice!") == "nice!"
  {
    assert "Nice!" == "Nice" + "!";
    CleanWordAppend("Nice", "!");
    CleanWordOfAlnumIsLowerAll("Nice");
    assert LowerAll("Nice") == "nice";
  }

  /** A whitespace-free, non-empty word: what one `stringstream >> word` extracts. */
  predicate IsToken(w: string) {
    w != [] && forall k :: 0 <= k < |w| ==> !IsSpace(w[k])
  }

  /** Length of the run of non-space characters at the start of `s`. */
  function WordLength(s: string): (n: nat)
    ensures n <= |s|
    ensures forall k :: 0 <= k < n ==> !IsSpace(s[k])
    ensures n < |s| ==> IsSpace(s[n])
  {
    if s == [] || IsSpace(s[0]) then 0 else 1 + WordLength(s[1..])
  }

  /** The words `stringstream >> word` extracts from `s`, in order: whitespace separates
      words and is itself dropped. */
  function Tokens(s: string): (r: seq<string>)
    ensures forall k :: 0 <= k < |r| ==> IsToken(r[k])
    decreases |s|
  {
    if s == [] then []
    else if IsSpace(s[0]) then Tokens(s[1..])
    else
      var n := WordLength(s);
      [s[..n]] + Tokens(s[n..])
  }

  /** The words of `ws` separated by single spaces. */
  function JoinWords(ws: seq<string>): string {
    if ws == [] then []
    else if |ws| == 1 then ws[0]
    else ws[0] + " " + JoinWords(ws[1..])
  }

  lemma {:induction false} WordLengthOfToken(w: string, rest: string)
    requires IsToken(w)
    requires rest == [] || IsSpace(rest[0])
    ensures WordLength(w + rest) == |w|
    decreases |w|
  {
    if |w| > 1 {
      assert (w + rest)[1..] == w[1..] + rest;
      WordLengthOfToken(w[1..], rest);
    } else {
      assert (w + rest)[1..] == rest;
    }
  }

  /** Tokenising words joined by single spaces gives back the words: no word is split, merged,
      lost or altered. */
  lemma {:induction false} TokensOfJoinWords(ws: seq<string>)
    requires forall k :: 0 <= k < |ws| ==> IsToken(ws[k])
    ensures Tokens(JoinWords(ws)) == ws
  {
    if |ws| == 1 {
      WordLengthOfToken(ws[0], []);
      assert ws[0] + [] == ws[0];
      assert ws[0][|ws[0]|..] == [];
    } else if |ws| > 1 {
      var w, rest := ws[0], JoinWords(ws[1..]);
      var s := w + " " + rest;
      WordLengthOfToken(w, " " + rest);
      assert s == w + (" " + rest);
      assert s[..|w|] == w && s[|w|..] == " " + rest;
      assert (" " + rest)[1..] == rest;
      TokensOfJoinWords(ws[1..]);
    }
  }

  /** The words of `ws` written one after the other, with nothing between them. */
  function Concat(ws: seq<string>): string {
    if ws == [] then [] else ws[0] + Concat(ws[1..])
  }

  /** The characters of `s` that are not whitespace, in order. */
  function NonSpace(s: string): string {
    if s == [] then [] else (if IsSpace(s[0]) then [] else [s[0]]) + NonSpace(s[1..])
  }

  /** A leading run of `n` non-space characters passes into `NonSpace` whole. */
  lemma {:induction false} NonSpaceOfRun(s: string, n: int)
    requires 0 <= n <= |s|
    requires forall k :: 0 <= k < n ==> !IsSpace(s[k])
    ensures NonSpace(s) == s[..n] + NonSpace(s[n..])
    decreases n
  {
    if n == 0 {
      assert s[..0] == [] && s[0..] == s;
    } else {
      NonSpaceOfRun(s[1..], n - 1);
      assert s[1..][..n - 1] == s[1..n] && s[1..][n - 1..] == s[n..];
      assert [s[0]] + s[1..n] == s[..n];
    }
  }

  /** Tokenising keeps every non-space character and nothing else: the tokens, written one
      after the other, are the text with its whitespace removed. */
  lemma {:induction false} TokensCoverText(s: string)
    ensures Concat(Tokens(s)) == NonSpace(s)
    decreases |s|
  {
    if s != [] {
      if IsSpace(s[0]) {
        TokensCoverText(s[1..]);
      } else {
        var n := WordLength(s);
        NonSpaceOfRun(s, n);
        TokensCoverText(s[n..]);
        assert Tokens(s)[0] == s[..n] && Tokens(s)[1..] == Tokens(s[n..]);
      }
    }
  }

  /** Text appended after a word that has already ended does not change its length. */
  lemma {:induction false} WordLengthExtend(a: string, r: string)
    requires WordLength(a) < |a| || (r != [] && IsSpace(r[0]))
    ensures WordLength(a + r) == WordLength(a)
    decreases |a|
  {
    if a == [] {
      assert a + r == r;
    } else if !IsSpace(a[0]) {
      assert (a + r)[1..] == a[1..] + r;
      WordLengthExtend(a[1..], r);
    }
  }

  /** Any whitespace character separates tokens: the tokens of text split at one are the
      tokens of the part before it followed by the tokens of the part after it. */
  lemma {:induction false} TokensSplitAtSpace(a: string, c: char, b: string)
    requires IsSpace(c)
    ensures Tokens(a + [c] + b) == Tokens(a) + Tokens(b)
    decreases |a|
  {
    if a == [] {
      assert Tokens(a + [c] + b) == Tokens(b) by {
        assert a + [c] + b == [c] + b && ([c] + b)[1..] == b;
      }
    } else if IsSpace(a[0]) {
      assert Tokens(a + [c] + b) == Tokens(a[1..] + [c] + b) by {
        assert (a + [c] + b)[1..] == a[1..] + [c] + b;
      }
      TokensSplitAtSpace(a[1..], c, b);
    } else {
      var m := WordLength(a);
      assert Tokens(a + [c] + b) == [a[..m]] + Tokens(a[m..] + [c] + b) by {
        var s := a + [c] + b;
        assert s == a + ([c] + b);
        WordLengthExtend(a, [c] + b);
        assert s[..m] == a[..m];
        assert s[m..] == a[m..] + [c] + b;
      }
      TokensSplitAtSpace(a[m..], c, b);
    }
  }
}
