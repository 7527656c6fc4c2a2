/** The word edit of the storage server: replace word `w` of sentence `s` and rebuild the text. */
module WordEdit {
  import opened Text
  import opened Conservation

  datatype Edit = Edit(sentence: int, word: int, text: string)

  datatype EditResult = BadSentence | BadWord | Edited(content: string)

  /** Replace one word of one sentence in a sentence list. */
  function Put(ss: seq<string>, e: Edit): seq<string>
    requires 0 <= e.sentence < |ss| && 0 <= e.word < |Words(ss[e.sentence])|
  {
    ss[e.sentence := Join(Words(ss[e.sentence])[e.word := e.text])]
  }

  function EditWord(content: string, e: Edit): EditResult {
    var ss := Parse(content);
    if e.sentence < 0 || e.sentence >= |ss| then BadSentence
    else if e.word < 0 || e.word >= |Words(ss[e.sentence])| then BadWord
    else Edited(Join(Put(ss, e)))
  }

  predicate InRange(content: string, e: Edit) {
    && 0 <= e.sentence < |Parse(content)|
    && 0 <= e.word < |Words(Parse(content)[e.sentence])|
  }

  function NewWords(content: string, e: Edit): seq<string>
    requires InRange(content, e)
  {
    Words(Parse(content)[e.sentence])[e.word := e.text]
  }

  /** The sentence list that the edit means to produce. */
  function NewSentences(content: string, e: Edit): seq<string>
    requires InRange(content, e)
  {
    Put(Parse(content), e)
  }

  /** The fixed buffers of an edit: one word, one sentence, one document. */
  predicate FitsEdit(content: string, e: Edit) {
    InRange(content, e) ==>
      && |e.text| < MAX_WORD
      && |Join(NewWords(content, e))| < MAX_SENTENCE
      && |Join(NewSentences(content, e))| < BUFFER_SIZE
  }

  /** The replacement is one word that fits the buffers and can end, but not split, a sentence. */
  predicate GoodText(content: string, e: Edit)
    requires InRange(content, e)
  {
    && IsWord(e.text) && FitsEdit(content, e)
    && DelimOnlyAtEnd(e.text)
    && (EndsInDelim(e.text) ==> e.word == |Words(Parse(content)[e.sentence])| - 1)
  }

  /** Conditions a client can check beforehand, under which the edit touches nothing but its word. */
  predicate EditOk(content: string, e: Edit) {
    && InRange(content, e) && FitsEdit(content, e)
    && Canonical(Parse(content))
    && (var s := Parse(content)[e.sentence];
        && Tokens(s) == Words(s)
        && IsWord(e.text)
        && DelimOnlyAtEnd(e.text) && EndsInDelim(e.text) == EndsInDelim(Words(s)[e.word])
        && (e.sentence > 0 ==> |Join(NewWords(content, e))| <= MAX_SENTENCE - 2))
  }

  // ----- the words of a sentence -----

  /** Delimiters sit only at the very end of a word list. */
  predicate WordsOfSentence(ws: seq<string>) {
    && ws != [] && AllWords(ws)
    && (forall i :: 0 <= i < |ws| - 1 ==> NoDelim(ws[i]))
    && DelimOnlyAtEnd(ws[|ws| - 1])
  }

  lemma {:induction false} StripKeepsEnd(s: string)
    requires s != "" && !IsSpace(s[|s| - 1]) && DelimOnlyAtEnd(s)
    ensures Strip(s) != "" && DelimOnlyAtEnd(Strip(s))
    ensures EndsInDelim(Strip(s)) == EndsInDelim(s)
  {
    if |s| > 1 {
      StripKeepsEnd(s[1..]);
    } else {
      assert Strip(s) == s;
    }
  }

  lemma {:induction false} ConcatDelims(ws: seq<string>)
    requires ws != [] && AllWords(ws)
    requires DelimOnlyAtEnd(Concat(ws))
    ensures WordsOfSentence(ws)
    ensures EndsInDelim(ws[|ws| - 1]) == EndsInDelim(Concat(ws))
  {
    var c, rest := Concat(ws), ws[1..];
    if rest == [] {
      assert Concat(rest) == "" && c == ws[0] + "" == ws[0];
    } else {
      assert Concat(rest) == rest[0] + Concat(rest[1..]);
      forall i | 0 <= i < |ws[0]| ensures !IsDelim(ws[0][i]) {
        assert ws[0][i] == c[i];
      }
      forall i | 0 <= i < |Concat(rest)| - 1 ensures !IsDelim(Concat(rest)[i]) {
        assert Concat(rest)[i] == c[|ws[0]| + i];
      }
      ConcatDelims(rest);
      assert forall i :: 1 <= i < |ws| ==> ws[i] == rest[i - 1];
    }
  }

  lemma TokensOfSentence(s: string)
    requires IsSentence(s)
    ensures WordsOfSentence(Tokens(s))
    ensures EndsInDelim(Tokens(s)[|Tokens(s)| - 1]) == EndsInDelim(s)
  {
    TokensAreWords(s);
    TokensStrip(s);
    StripKeepsEnd(s);
    ConcatDelims(Tokens(s));
  }

  lemma ClippedWords(s: string)
    requires IsSentence(s)
    ensures WordsOfSentence(Words(s))
  {
    TokensOfSentence(s);
    WordsNormalForm(s, MAX_WORDS_PER_SENTENCE);
  }

  lemma {:induction false} JoinIsSentence(ws: seq<string>)
    requires WordsOfSentence(ws)
    ensures Join(ws) != "" && Trimmed(Join(ws)) && DelimOnlyAtEnd(Join(ws))
    ensures EndsInDelim(Join(ws)) == EndsInDelim(ws[|ws| - 1])
  {
    if |ws| > 1 {
      JoinIsSentence(ws[1..]);
      assert Join(ws) == ws[0] + " " + Join(ws[1..]);
    }
  }

  // ----- the frame of an edit -----

  /** The word list of the edited sentence is the intended one, and so is the sentence list of the
      saved text -- the latter exactly when the intended list is canonical. */
  lemma EditFrame(content: string, e: Edit)
    requires InRange(content, e) && GoodText(content, e)
    ensures EditWord(content, e) == Edited(Join(NewSentences(content, e)))
    ensures AllSentences(NewSentences(content, e))
    ensures Words(NewSentences(content, e)[e.sentence]) == NewWords(content, e)
    ensures Parse(EditWord(content, e).content) == NewSentences(content, e)
            <==> Canonical(NewSentences(content, e))
  {
    var s, ws := Parse(content)[e.sentence], NewWords(content, e);
    ParseNormalForm(content, MAX_SENTENCES);
    ClippedWords(s);
    WordsNormalForm(s, MAX_WORDS_PER_SENTENCE);
    JoinIsSentence(ws);
    WordRoundTrip(ws, MAX_WORDS_PER_SENTENCE);
    RoundTrip(NewSentences(content, e));
  }

  /** For any edit whatsoever: the saved text reads back as the intended list exactly when the new
      sentence is one sentence and the list is canonical. */
  lemma EditReadsBackExactly(content: string, e: Edit)
    requires InRange(content, e) && FitsEdit(content, e)
    ensures Parse(EditWord(content, e).content) == NewSentences(content, e)
            <==> IsSentence(NewSentences(content, e)[e.sentence]) && Canonical(NewSentences(content, e))
  {
    ParseNormalForm(content, MAX_SENTENCES);
    RoundTripExactly(NewSentences(content, e));
  }

  lemma WordsUpdate(ws: seq<string>, k: nat, t: string)
    requires WordsOfSentence(ws) && k < |ws|
    requires IsWord(t) && DelimOnlyAtEnd(t) && EndsInDelim(t) == EndsInDelim(ws[k])
    ensures WordsOfSentence(ws[k := t])
    ensures EndsInDelim(ws[k := t][|ws| - 1]) == EndsInDelim(ws[|ws| - 1])
    ensures EndsInDelim(t) ==> k == |ws| - 1
  {
    if k < |ws| - 1 {
      assert NoDelim(ws[k]) && !EndsInDelim(t);
      assert NoDelim(t);
    }
  }

  lemma EditOkIsGood(content: string, e: Edit)
    requires EditOk(content, e)
    ensures GoodText(content, e)
    ensures EndsInDelim(Join(NewWords(content, e))) == EndsInDelim(Parse(content)[e.sentence])
  {
    var s := Parse(content)[e.sentence];
    ParseNormalForm(content, MAX_SENTENCES);
    TokensOfSentence(s);
    WordsUpdate(Words(s), e.word, e.text);
    JoinIsSentence(NewWords(content, e));
  }

  lemma CanonicalUpdate(ss: seq<string>, k: nat, t: string)
    requires Canonical(ss) && k < |ss|
    requires EndsInDelim(t) == EndsInDelim(ss[k])
    requires k > 0 ==> |t| <= MAX_SENTENCE - 2
    ensures Canonical(ss[k := t])
  {
  }

  /** Under the checkable conditions the edit reads back as the replacement of one word. */
  lemma EditOkReadsBack(content: string, e: Edit)
    requires EditOk(content, e)
    ensures EditWord(content, e) == Edited(Join(NewSentences(content, e)))
    ensures Parse(EditWord(content, e).content) == NewSentences(content, e)
    ensures Canonical(NewSentences(content, e))
    ensures Words(NewSentences(content, e)[e.sentence]) == NewWords(content, e)
  {
    EditOkIsGood(content, e);
    CanonicalUpdate(Parse(content), e.sentence, Join(NewWords(content, e)));
    EditFrame(content, e);
  }

  // ----- edits commute -----

  lemma PutTwoSentences(ss: seq<string>, e1: Edit, e2: Edit)
    requires 0 <= e1.sentence < |ss| && 0 <= e1.word < |Words(ss[e1.sentence])|
    requires 0 <= e2.sentence < |ss| && 0 <= e2.word < |Words(ss[e2.sentence])|
    requires e1.sentence != e2.sentence
    ensures Put(Put(ss, e1), e2) == Put(Put(ss, e2), e1)
  {
  }

  lemma PutTwoWords(ss: seq<string>, e1: Edit, e2: Edit)
    requires 0 <= e1.sentence == e2.sentence < |ss|
    requires 0 <= e1.word < |Words(ss[e1.sentence])| && 0 <= e2.word < |Words(ss[e1.sentence])|
    requires e1.word != e2.word
    requires Words(Put(ss, e1)[e1.sentence]) == Words(ss[e1.sentence])[e1.word := e1.text]
    requires Words(Put(ss, e2)[e1.sentence]) == Words(ss[e1.sentence])[e2.word := e2.text]
    ensures Put(Put(ss, e1), e2) == Put(Put(ss, e2), e1)
  {
    var ws := Words(ss[e1.sentence]);
    assert ws[e1.word := e1.text][e2.word := e2.text] == ws[e2.word := e2.text][e1.word := e1.text];
  }

  /** What a second edit does after a first one that read back. */
  lemma SecondEdit(content: string, e1: Edit, e2: Edit)
    requires EditOk(content, e1) && InRange(content, e2)
    ensures var ss := Put(Parse(content), e1);
            && (e2.sentence == e1.sentence ==>
                  Words(ss[e1.sentence]) == Words(Parse(content)[e1.sentence])[e1.word := e1.text])
            && e2.word < |Words(ss[e2.sentence])|
            && Parse(EditWord(content, e1).content) == ss
            && EditWord(EditWord(content, e1).content, e2) == Edited(Join(Put(ss, e2)))
  {
    EditOkReadsBack(content, e1);
  }

  lemma PutsCommute(content: string, e1: Edit, e2: Edit)
    requires EditOk(content, e1) && EditOk(content, e2)
    requires (e1.sentence, e1.word) != (e2.sentence, e2.word)
    ensures e2.word < |Words(Put(Parse(content), e1)[e2.sentence])|
    ensures e1.word < |Words(Put(Parse(content), e2)[e1.sentence])|
    ensures Put(Put(Parse(content), e1), e2) == Put(Put(Parse(content), e2), e1)
  {
    SecondEdit(content, e1, e2);
    SecondEdit(content, e2, e1);
    if e1.sentence == e2.sentence {
      PutTwoWords(Parse(content), e1, e2);
    } else {
      PutTwoSentences(Parse(content), e1, e2);
    }
  }

  lemma OtherOrderFits(content: string, e1: Edit, e2: Edit)
    requires EditOk(content, e1) && EditOk(content, e2)
    requires (e1.sentence, e1.word) != (e2.sentence, e2.word)
    requires FitsEdit(EditWord(content, e1).content, e2)
    ensures FitsEdit(EditWord(content, e2).content, e1)
  {
    SecondEdit(content, e1, e2);
    SecondEdit(content, e2, e1);
    PutsCommute(content, e1, e2);
    var both := Put(Put(Parse(content), e1), e2);
    var last := NewWords(EditWord(content, e2).content, e1);
    assert both[e1.sentence] == Join(last);
    if e1.sentence == e2.sentence {
      assert both[e2.sentence] == Join(NewWords(EditWord(content, e1).content, e2));
    } else {
      assert both[e1.sentence] == Join(NewWords(content, e1));
    }
  }

  /** Two edits at different positions give the same bytes in either order, and one order fits the
      buffers if the other does. */
  lemma EditsCommute(content: string, e1: Edit, e2: Edit)
    requires EditOk(content, e1) && EditOk(content, e2)
    requires (e1.sentence, e1.word) != (e2.sentence, e2.word)
    requires FitsEdit(EditWord(content, e1).content, e2)
    ensures FitsEdit(EditWord(content, e2).content, e1)
    ensures EditWord(EditWord(content, e1).content, e2).Edited?
    ensures EditWord(EditWord(content, e1).content, e2) == EditWord(EditWord(content, e2).content, e1)
  {
    OtherOrderFits(content, e1, e2);
    SecondEdit(content, e1, e2);
    SecondEdit(content, e2, e1);
    PutsCommute(content, e1, e2);
  }

  /** Two edits at one position leave the result of the last one, whatever that one writes. */
  lemma LastEditWins(content: string, e: Edit, text: string)
    requires EditOk(content, e) && FitsEdit(content, e.(text := text))
    ensures EditWord(EditWord(content, e).content, e.(text := text)) == EditWord(content, e.(text := text))
  {
    EditOkReadsBack(content, e);
    var ss, ws := Parse(content), Words(Parse(content)[e.sentence]);
    assert ws[e.word := e.text][e.word := text] == ws[e.word := text];
    var s1, s2 := Join(NewWords(content, e)), Join(ws[e.word := text]);
    assert ss[e.sentence := s1][e.sentence := s2] == ss[e.sentence := s2];
  }
}
