/** The loops of src/common/utils.c over character buffers, proved against `Text`.

    A buffer is an array; the C string it holds at an offset runs to the first terminator.  Output
    arrays are arrays of strings, of which the first `count` entries are meaningful.
 */
module TextLoops {
  import opened Text
  import opened Conservation

  const NUL: char := '\0'

  predicate NoNul(s: string) {
    forall i :: 0 <= i < |s| ==> s[i] != NUL
  }

  /** Buffer `b` holds the C string `s` at offset `from`. */
  ghost predicate Holds(b: seq<char>, from: nat, s: string) {
    && from + |s| < |b|
    && (forall i {:trigger s[i]} :: 0 <= i < |s| ==> b[from + i] == s[i])
    && NoNul(s)
    && b[from + |s|] == NUL
  }

  /** What is left in the buffer at its start after `trim` returned: only the tail was cut off, and
      nothing at all if the whole string is blank. */
  function TrimInPlace(s: string): string {
    if Blank(s) then s else TrimRight(s)
  }

  method StrLen(b: array<char>, from: nat, ghost s: string) returns (n: nat)
    requires Holds(b[..], from, s)
    ensures n == |s|
  {
    n := 0;
    while b[from + n] != NUL
      invariant n <= |s|
      invariant n < |s| ==> b[from + n] == s[n]
      decreases |s| - n
    {
      n := n + 1;
    }
  }

  /** strncpy out of a buffer. */
  method CopyOut(b: array<char>, from: nat, ghost s: string) returns (r: string)
    requires Holds(b[..], from, s)
    ensures r == s
  {
    var n := StrLen(b, from, s);
    r := b[from..from + n];
  }

  // ----- trim -----

  lemma TrimLeftSuffix(s: string, k: nat)
    requires k <= |s| && Blank(s[..k])
    requires k < |s| ==> !IsSpace(s[k])
    ensures TrimLeft(s) == s[k..]
  {
    TrimLeftUnique(s[..k], s[k..]);
    assert s == s[..k] + s[k..];
  }

  lemma TrimRightPrefix(s: string, k: nat)
    requires 0 < k <= |s| && !IsSpace(s[k - 1]) && Blank(s[k..])
    ensures TrimRight(s) == s[..k]
  {
    TrimRightUnique(s[..k], s[k..]);
    assert s == s[..k] + s[k..];
  }

  method SkipBlanks(str: array<char>, ghost s: string) returns (start: nat)
    requires Holds(str[..], 0, s)
    ensures start <= |s| && TrimLeft(s) == s[start..]
    ensures str[start] == NUL <==> start == |s|
    ensures start == |s| <==> Blank(s)
    ensures start < |s| ==> !IsSpace(s[start])
  {
    start := 0;
    while IsSpace(str[start])
      invariant start <= |s|
      invariant start < |s| ==> str[start] == s[start]
      invariant forall k :: 0 <= k < start ==> IsSpace(s[k])
      decreases |s| - start
    {
      start := start + 1;
    }
    TrimLeftSuffix(s, start);
  }

  method FindEnd(str: array<char>, start: nat, ghost s: string) returns (end: nat)
    requires Holds(str[..], 0, s) && start < |s| && !IsSpace(s[start])
    ensures start <= end < |s|
    ensures TrimRight(s[start..]) == s[start..end + 1] && TrimRight(s) == s[..end + 1]
  {
    var n := StrLen(str, 0, s);
    end := n - 1;
    while end > start && IsSpace(str[end])
      invariant start <= end < |s|
      invariant str[end] == s[end]
      invariant forall k :: end < k < |s| ==> IsSpace(s[k])
      decreases end
    {
      end := end - 1;
    }
    TrimRightPrefix(s, end + 1);
    TrimRightPrefix(s[start..], end + 1 - start);
    assert s[start..][..end + 1 - start] == s[start..end + 1];
  }

  method TrimBuffer(str: array<char>, ghost s: string) returns (start: nat)
    requires Holds(str[..], 0, s)
    modifies str
    ensures Holds(str[..], start, Trim(s))
    ensures Holds(str[..], 0, TrimInPlace(s))
  {
    start := SkipBlanks(str, s);
    if str[start] == NUL {
      return;
    }
    var end := FindEnd(str, start, s);
    str[end + 1] := NUL;
  }

  // ----- a text buffer being filled -----

  /** The buffer holds the first characters of `seg`, as many as fit. */
  ghost predicate Pending(current: seq<char>, currPos: nat, seg: string) {
    && |current| > 0
    && currPos == |Take(seg, |current| - 1)|
    && current[..currPos] == Take(seg, |current| - 1)
  }

  method Push(current: array<char>, currPos: nat, c: char, ghost seg: string) returns (p: nat)
    requires Pending(current[..], currPos, seg)
    modifies current
    ensures Pending(current[..], p, seg + [c])
  {
    p := currPos;
    if p < current.Length - 1 {
      current[p] := c;
      p := p + 1;
    }
  }

  method Terminate(current: array<char>, currPos: nat, ghost seg: string)
    requires Pending(current[..], currPos, seg) && NoNul(seg)
    modifies current
    ensures Holds(current[..], 0, Take(seg, current.Length - 1))
  {
    current[currPos] := NUL;
    assert current[..currPos] == Take(seg, current.Length - 1);
  }

  method Reset(current: array<char>)
    requires current.Length > 0
    modifies current
    ensures Pending(current[..], 0, "")
  {
    forall k | 0 <= k < current.Length { current[k] := NUL; }
  }

  // ----- parse_sentences -----

  /** What the loops emit, plus what a last pending piece still gives, is the whole list or its
      first `max` entries. */
  lemma TakeAll(emitted: seq<string>, last: seq<string>, todo: seq<string>, max: nat)
    requires |emitted| <= max && |last| <= 1
    requires |emitted| < max ==> todo == last
    ensures Take(emitted + todo, max) == if |emitted| < max then emitted + last else emitted
  {
  }

  lemma Regroup(a: seq<string>, b: seq<string>, c: seq<string>)
    ensures a + (b + c) == (a + b) + c
    ensures b == [] ==> a + (b + c) == a + c
  {
  }

  /** Moving one character from the unread text to the pending piece. */
  lemma Shift(seg: string, content: string, i: nat)
    requires i < |content|
    ensures seg + content[i..] == (seg + [content[i]]) + content[i + 1..]
  {
    assert content[i..] == [content[i]] + content[i + 1..];
  }

  function SentencesFrom(seg: string, rest: string): seq<string> {
    Keep(Segments(seg + rest))
  }

  lemma SentencesStart(content: string, none: seq<string>, max: nat)
    requires none == []
    ensures none + SentencesFrom("", content[0..]) == SentencesFrom("", content[0..])
    ensures Take(SentencesFrom("", content[0..]), max) == Sentences(content, max)
  {
    assert "" + content[0..] == content;
  }

  lemma SentenceGrows(seg: string, content: string, i: nat)
    requires i < |content|
    ensures SentencesFrom(seg, content[i..]) == SentencesFrom(seg + [content[i]], content[i + 1..])
  {
    Shift(seg, content, i);
  }

  lemma KeepStep(x: string, rest: string)
    requires DelimOnlyAtEnd(x) && EndsInDelim(x)
    ensures SentencesFrom(x, rest) == Keep([x]) + SentencesFrom("", rest)
  {
    SegmentsFirst(x, rest);
    KeepAppend([x], Segments(rest));
    assert "" + rest == rest;
  }

  lemma KeepOne(x: string)
    ensures Keep([x]) == if Clean(x) == "" then [] else [Clean(x)]
  {
    assert Keep([x][1..]) == [];
  }

  lemma KeepLast(x: string)
    requires NoDelim(x)
    ensures SentencesFrom(x, "") == if x == "" then [] else Keep([x])
  {
    assert x + "" == x;
    if x != "" {
      SegmentsOne(x);
    }
  }

  /** Emit the buffered sentence, trimmed, unless it is blank. */
  method FlushSentence(current: array<char>, currPos: nat, ghost seg: string, sentences: array<string>, count: nat)
    returns (count': nat)
    requires current.Length == MAX_SENTENCE && NoNul(seg)
    requires Pending(current[..], currPos, seg)
    requires count < sentences.Length
    modifies current, sentences
    ensures count <= count' <= count + 1
    ensures sentences[..count'] == old(sentences[..count]) + Keep([seg])
    ensures Pending(current[..], 0, "")
  {
    Terminate(current, currPos, seg);
    var at := TrimBuffer(current, Take(seg, MAX_SENTENCE - 1));
    var trimmed := CopyOut(current, at, Clean(seg));
    KeepOne(seg);
    count' := count;
    if |trimmed| > 0 {
      sentences[count] := trimmed;
      count' := count + 1;
    }
    Reset(current);
  }

  /** One turn of the loop: store the character, and emit the sentence if it ends here. */
  method FeedSentence(current: array<char>, currPos: nat, c: char, sentences: array<string>, count: nat,
                      ghost seg: string, ghost rest: string)
    returns (currPos': nat, count': nat, ghost seg': string)
    requires current.Length == MAX_SENTENCE && count < sentences.Length
    requires NoNul(seg) && c != NUL && NoDelim(seg)
    requires Pending(current[..], currPos, seg)
    modifies current, sentences
    ensures count <= count' <= count + 1 && (count < count' ==> seg' == "")
    ensures NoNul(seg') && NoDelim(seg')
    ensures Pending(current[..], currPos', seg')
    ensures sentences[..count'] + SentencesFrom(seg', rest)
            == old(sentences[..count]) + SentencesFrom(seg + [c], rest)
  {
    seg' := seg + [c];
    currPos' := Push(current, currPos, c, seg);
    count' := count;
    if IsDelim(c) {
      KeepStep(seg', rest);
      Regroup(sentences[..count], Keep([seg']), SentencesFrom("", rest));
      count' := FlushSentence(current, currPos', seg', sentences, count);
      currPos' := 0;
      seg' := "";
    }
  }

  /** The text has run out, or the list is full. */
  method FinishSentences(current: array<char>, currPos: nat, sentences: array<string>, count: nat, max: nat,
                         ghost seg: string, ghost rest: string)
    returns (count': nat)
    requires current.Length == MAX_SENTENCE && count <= max <= sentences.Length
    requires NoNul(seg) && NoDelim(seg) && Pending(current[..], currPos, seg)
    requires count < max ==> rest == ""
    modifies current, sentences
    ensures count' <= max
    ensures sentences[..count'] == Take(old(sentences[..count]) + SentencesFrom(seg, rest), max)
  {
    KeepLast(seg);
    KeepOne(seg);
    TakeAll(sentences[..count], if seg == "" then [] else Keep([seg]), SentencesFrom(seg, rest), max);
    count' := count;
    if currPos > 0 && count < max {
      count' := FlushSentence(current, currPos, seg, sentences, count);
    }
  }

  method ParseSentences(content: string, sentences: array<string>, max: nat) returns (count: nat)
    requires NoNul(content) && max <= sentences.Length
    modifies sentences
    ensures count <= max && sentences[..count] == Sentences(content, max)
  {
    count := 0;
    var current := new char[MAX_SENTENCE](_ => NUL);
    var currPos := 0;
    var i := 0;
    ghost var seg, all := "", SentencesFrom("", content[0..]);
    SentencesStart(content, sentences[..0], max);
    while i < |content| && count < max
      invariant i <= |content| && count <= max
      invariant count == max ==> seg == ""
      invariant NoDelim(seg) && NoNul(seg)
      invariant Pending(current[..], currPos, seg)
      invariant sentences[..count] + SentencesFrom(seg, content[i..]) == all
    {
      SentenceGrows(seg, content, i);
      currPos, count, seg := FeedSentence(current, currPos, content[i], sentences, count, seg, content[i + 1..]);
      i := i + 1;
    }
    assert count < max ==> content[i..] == "";
    count := FinishSentences(current, currPos, sentences, count, max, seg, content[i..]);
  }

  // ----- parse_words -----

  predicate NoSpace(s: string) {
    forall k :: 0 <= k < |s| ==> !IsSpace(s[k])
  }

  /** The words that come out of a pending run of non-space characters and the text after it. */
  function WordsFrom(w: string, rest: string): seq<string> {
    ClipWords(Tokens(w + rest))
  }

  /** A run of non-space characters followed by a space is the next token. */
  lemma WordStep(w: string, sentence: string, i: nat)
    requires NoSpace(w) && i < |sentence| && IsSpace(sentence[i])
    ensures WordsFrom(w, sentence[i..])
            == (if w == "" then [] else [Take(w, MAX_WORD - 1)]) + WordsFrom("", sentence[i + 1..])
  {
    var rest := sentence[i..];
    assert rest[1..] == sentence[i + 1..] == "" + sentence[i + 1..];
    assert Tokens(rest) == Tokens(rest[1..]);
    if w == "" {
      assert w + rest == rest;
    } else {
      assert w + rest == "" + w + rest;
      TokensFirst("", w, rest);
      assert ([w] + Tokens(rest))[1..] == Tokens(rest);
    }
  }

  lemma WordsStart(sentence: string, none: seq<string>, max: nat)
    requires none == []
    ensures none + WordsFrom("", sentence[0..]) == WordsFrom("", sentence[0..])
    ensures Take(WordsFrom("", sentence[0..]), max) == WordsUpTo(sentence, max)
  {
    assert "" + sentence[0..] == sentence;
  }

  lemma WordGrows(w: string, sentence: string, i: nat)
    requires i < |sentence|
    ensures WordsFrom(w, sentence[i..]) == WordsFrom(w + [sentence[i]], sentence[i + 1..])
  {
    Shift(w, sentence, i);
  }

  lemma WordLast(w: string)
    requires NoSpace(w)
    ensures WordsFrom(w, "") == if w == "" then [] else [Take(w, MAX_WORD - 1)]
  {
    assert w + "" == "" + w + "";
    assert Tokens("") == [];
    if w != "" {
      TokensFirst("", w, "");
    }
  }

  method FlushWord(current: array<char>, currPos: nat, ghost w: string, words: array<string>, count: nat)
    returns (count': nat)
    requires current.Length == MAX_WORD && NoNul(w)
    requires Pending(current[..], currPos, w)
    requires count < words.Length
    modifies current, words
    ensures count' == count + 1
    ensures words[..count'] == old(words[..count]) + [Take(w, MAX_WORD - 1)]
    ensures Pending(current[..], 0, "")
  {
    Terminate(current, currPos, w);
    var word := CopyOut(current, 0, Take(w, MAX_WORD - 1));
    words[count] := word;
    count' := count + 1;
    Reset(current);
  }

  /** One turn of the loop: a space ends the pending word, any other character extends it. */
  method FeedWord(current: array<char>, currPos: nat, sentence: string, i: nat, words: array<string>, count: nat,
                  ghost w: string)
    returns (currPos': nat, count': nat, ghost w': string)
    requires current.Length == MAX_WORD && count < words.Length
    requires i < |sentence| && sentence[i] != NUL && NoNul(w) && NoSpace(w)
    requires Pending(current[..], currPos, w)
    modifies current, words
    ensures count <= count' <= count + 1 && (count < count' ==> w' == "")
    ensures NoNul(w') && NoSpace(w')
    ensures Pending(current[..], currPos', w')
    ensures words[..count'] + WordsFrom(w', sentence[i + 1..])
            == old(words[..count]) + WordsFrom(w, sentence[i..])
  {
    currPos', count', w' := currPos, count, w;
    if IsSpace(sentence[i]) {
      WordStep(w, sentence, i);
      Regroup(words[..count], if w == "" then [] else [Take(w, MAX_WORD - 1)], WordsFrom("", sentence[i + 1..]));
      if currPos > 0 {
        count' := FlushWord(current, currPos, w, words, count);
        currPos' := 0;
        w' := "";
      }
    } else {
      WordGrows(w, sentence, i);
      currPos' := Push(current, currPos, sentence[i], w);
      w' := w + [sentence[i]];
    }
  }

  method FinishWords(current: array<char>, currPos: nat, words: array<string>, count: nat, max: nat,
                     ghost w: string, ghost rest: string)
    returns (count': nat)
    requires current.Length == MAX_WORD && count <= max <= words.Length
    requires NoNul(w) && NoSpace(w) && Pending(current[..], currPos, w)
    requires count < max ==> rest == ""
    modifies current, words
    ensures count' <= max
    ensures words[..count'] == Take(old(words[..count]) + WordsFrom(w, rest), max)
  {
    WordLast(w);
    TakeAll(words[..count], if w == "" then [] else [Take(w, MAX_WORD - 1)], WordsFrom(w, rest), max);
    count' := count;
    if currPos > 0 && count < max {
      count' := FlushWord(current, currPos, w, words, count);
    }
  }

  method ParseWords(sentence: string, words: array<string>, max: nat) returns (count: nat)
    requires NoNul(sentence) && max <= words.Length
    modifies words
    ensures count <= max && words[..count] == WordsUpTo(sentence, max)
  {
    count := 0;
    var current := new char[MAX_WORD](_ => NUL);
    var currPos := 0;
    var i := 0;
    ghost var w, all := "", WordsFrom("", sentence[0..]);
    WordsStart(sentence, words[..0], max);
    while i < |sentence| && count < max
      invariant i <= |sentence| && count <= max
      invariant count == max ==> w == ""
      invariant NoSpace(w) && NoNul(w)
      invariant Pending(current[..], currPos, w)
      invariant words[..count] + WordsFrom(w, sentence[i..]) == all
    {
      currPos, count, w := FeedWord(current, currPos, sentence, i, words, count, w);
      i := i + 1;
    }
    assert count < max ==> sentence[i..] == "";
    count := FinishWords(current, currPos, words, count, max, w, sentence[i..]);
  }

  // ----- the strcat loops -----

  method JoinLoop(parts: array<string>, n: nat) returns (r: string)
    requires n <= parts.Length
    ensures r == Join(parts[..n])
  {
    r := "";
    var i := 0;
    while i < n
      invariant 0 <= i <= n
      invariant r == Join(parts[..i])
    {
      JoinAppend(parts[..i], parts[i]);
      assert parts[..i] + [parts[i]] == parts[..i + 1];
      if i > 0 {
        r := r + " ";
      }
      r := r + parts[i];
      i := i + 1;
    }
  }
}
