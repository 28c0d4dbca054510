/** `cleanChirp` of main.go: masks the listed words of a chirp body. */
module Profanity {
  import opened Strings

  /** The listed words, in lower case. */
  const Profane: set<string> := {"kerfuffle", "sharbert", "fornax"}

  /** What a listed word is replaced with. */
  const Mask: string := "****"

  /** One word as the loop of `cleanChirp` leaves it. */
  function CensorWord(w: string): (r: string)
    ensures r == w || r == Mask
    ensures ToLower(r) !in Profane
  {
    assert ToLower(Mask) == Mask;
    if ToLower(w) in Profane then Mask else w
  }

  /** Every word of `words` passed through `CensorWord`. */
  function CensorAll(words: seq<string>): (r: seq<string>)
    ensures |r| == |words|
    ensures forall k :: 0 <= k < |words| ==> r[k] == CensorWord(words[k])
  {
    seq(|words|, k requires 0 <= k < |words| => CensorWord(words[k]))
  }

  /**
   * The functional reading of `cleanChirp`: split on " ", censor each word,
   * join with " ". The cleaned body splits into exactly the censored words.
   */
  function Clean(body: string): (r: string)
    ensures Split(r) == CensorAll(Split(body))
    ensures |Split(r)| == |Split(body)|
  {
    CensoredWordsHaveNoSpace(Split(body));
    SplitJoin(CensorAll(Split(body)));
    Join(CensorAll(Split(body)))
  }

  /**
   * `cleanChirp`: the words of the split are rewritten in place, one by one,
   * then joined again.
   */
  method CleanChirp(body: string) returns (cleaned: string)
    ensures cleaned == Clean(body)
  {
    var pieces := Split(body);
    var words := new string[|pieces|](k requires 0 <= k < |pieces| => pieces[k]);
    for i := 0 to words.Length
      invariant forall k :: 0 <= k < i ==> words[k] == CensorWord(pieces[k])
      invariant forall k :: i <= k < words.Length ==> words[k] == pieces[k]
    {
      if ToLower(words[i]) in Profane {
        words[i] := Mask;
      }
    }
    assert words[..] == CensorAll(pieces);
    cleaned := Join(words[..]);
  }

  /** A word is replaced exactly when its lower-case form is listed. */
  lemma CensorWordChanges(w: string)
    ensures CensorWord(w) != w <==> ToLower(w) in Profane
    ensures ToLower(w) in Profane ==> CensorWord(w) == Mask
  {
  }

  /** The mask is not itself a listed word, so censoring a word twice changes nothing more. */
  lemma CensorWordIdempotent(w: string)
    ensures CensorWord(CensorWord(w)) == CensorWord(w)
  {
  }

  /** Censoring never lengthens a word: every listed word is longer than the mask. */
  lemma CensorWordNotLonger(w: string)
    ensures |CensorWord(w)| <= |w|
  {
  }

  /** Censoring every word twice is censoring it once. */
  lemma CensorAllIdempotent(words: seq<string>)
    ensures CensorAll(CensorAll(words)) == CensorAll(words)
  {
    forall k | 0 <= k < |words| ensures CensorWord(CensorWord(words[k])) == CensorWord(words[k]) {
      CensorWordIdempotent(words[k]);
    }
  }

  /** No censored word is longer than the word it replaces. */
  lemma CensorAllNotLonger(words: seq<string>)
    ensures forall k :: 0 <= k < |words| ==> |CensorAll(words)[k]| <= |words[k]|
  {
    forall k | 0 <= k < |words| ensures |CensorAll(words)[k]| <= |words[k]| {
      CensorWordNotLonger(words[k]);
    }
  }

  /** The censored words hold no space, so they survive a join and a split. */
  lemma CensoredWordsHaveNoSpace(words: seq<string>)
    requires forall k :: 0 <= k < |words| ==> ' ' !in words[k]
    ensures forall k :: 0 <= k < |words| ==> ' ' !in CensorAll(words)[k]
  {
  }

  /** Cleaning keeps every separator: the body has as many spaces as before. */
  lemma {:induction false} CleanKeepsSeparators(body: string)
    ensures multiset(Clean(body))[' '] == multiset(body)[' ']
  {
    SplitCount(body);
    SplitCount(Clean(body));
  }

  /** A body with no listed word comes back byte for byte. */
  lemma {:induction false} CleanWithoutListedWords(body: string)
    requires forall k :: 0 <= k < |Split(body)| ==> ToLower(Split(body)[k]) !in Profane
    ensures Clean(body) == body
  {
    assert CensorAll(Split(body)) == Split(body);
    JoinSplit(body);
  }

  /** Cleaning twice is cleaning once. */
  lemma {:induction false} CleanIdempotent(body: string)
    ensures Clean(Clean(body)) == Clean(body)
  {
    CensorAllIdempotent(Split(body));
  }

  /** Cleaning never makes a body longer. */
  lemma {:induction false} CleanNotLonger(body: string)
    ensures |Clean(body)| <= |body|
  {
    var words := Split(body);
    CensorAllNotLonger(words);
    JoinNotLonger(CensorAll(words), words);
    JoinSplit(body);
  }

  /** A capitalised listed word is masked; one with punctuation attached is not. */
  lemma CleanExamples()
    ensures CensorWord("Kerfuffle") == Mask
    ensures CensorWord("sharbert!") == "sharbert!"
    ensures CensorWord("FORNAX") == Mask
  {
    assert ToLower("Kerfuffle") == "kerfuffle";
    assert ToLower("FORNAX") == "fornax";
    assert |ToLower("sharbert!")| == 9;
    assert ToLower("sharbert!")[8] == '!';
  }

  /** A whole body: the listed word is masked, the rest and every space stay. */
  lemma CleanSentenceExample(body: string)
    requires body == "a Kerfuffle or sharbert!"
    ensures Clean(body) == "a **** or sharbert!"
  {
    var words := ["a", "Kerfuffle", "or", "sharbert!"];
    var masked := ["a", Mask, "or", "sharbert!"];
    SplitSentence(body, words);
    assert CensorAll(words) == masked by {
      CleanExamples();
      assert ToLower("a") == "a" && ToLower("or") == "or";
    }
    JoinMasked(masked);
  }

  /** The sample body splits into its four words. */
  lemma SplitSentence(body: string, words: seq<string>)
    requires body == "a Kerfuffle or sharbert!"
    requires words == ["a", "Kerfuffle", "or", "sharbert!"]
    ensures Split(body) == words
  {
    JoinSentence(words);
    assert forall k :: 0 <= k < |words| ==> ' ' !in words[k];
    SplitJoin(words);
  }

  /** The four words join into the sample body. */
  lemma JoinSentence(words: seq<string>)
    requires words == ["a", "Kerfuffle", "or", "sharbert!"]
    ensures Join(words) == "a Kerfuffle or sharbert!"
  {
    assert Join(words[3..]) == "sharbert!";
    assert Join(words[2..]) == "or sharbert!";
    assert Join(words[1..]) == "Kerfuffle or sharbert!";
  }

  /** The masked words join into the expected result. */
  lemma JoinMasked(masked: seq<string>)
    requires masked == ["a", Mask, "or", "sharbert!"]
    ensures Join(masked) == "a **** or sharbert!"
  {
    assert Join(masked[3..]) == "sharbert!";
    assert Join(masked[2..]) == "or sharbert!";
    assert Join(masked[1..]) == "**** or sharbert!";
  }
}
