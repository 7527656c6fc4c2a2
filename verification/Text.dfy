/** The text engine of src/common/utils.c, as functions on strings.

    A C string is a `string` without the terminator.  Both splitters are described twice over in
    this project: here declaratively (cut the text into raw pieces, clip each piece to its buffer,
    drop the empty ones, keep the first `max`), and in `TextLoops` as the buffer-filling loops of
    the C code, which are proved to compute the same lists.
 */
module Text {

  const BUFFER_SIZE: nat := 65536
  const MAX_SENTENCE: nat := 1024
  const MAX_WORD: nat := 128
  const MAX_WORDS_PER_SENTENCE: nat := 100
  const MAX_SENTENCES: nat := 1000

  predicate IsSpace(c: char) {
    c == ' ' || c == '\t' || c == '\n' || c == '\r'
  }

  predicate IsDelim(c: char) {
    c == '.' || c == '!' || c == '?'
  }

  predicate Blank(s: string) {
    forall i :: 0 <= i < |s| ==> IsSpace(s[i])
  }

  predicate NoDelim(s: string) {
    forall i :: 0 <= i < |s| ==> !IsDelim(s[i])
  }

  /** A delimiter, if there is one, is the last character. */
  predicate DelimOnlyAtEnd(s: string) {
    forall i :: 0 <= i < |s| - 1 ==> !IsDelim(s[i])
  }

  predicate EndsInDelim(s: string) {
    s != "" && IsDelim(s[|s| - 1])
  }

  predicate Trimmed(s: string) {
    s != "" ==> !IsSpace(s[0]) && !IsSpace(s[|s| - 1])
  }

  // ----- sequence helpers -----

  function Take<T>(s: seq<T>, n: nat): seq<T> {
    if |s| <= n then s else s[..n]
  }

  function Concat(ss: seq<string>): string {
    if ss == [] then "" else ss[0] + Concat(ss[1..])
  }

  /** The strcat loops: the parts separated by one space. */
  function Join(ss: seq<string>): string {
    if ss == [] then ""
    else if |ss| == 1 then ss[0]
    else ss[0] + " " + Join(ss[1..])
  }

  // ----- trim -----

  function TrimLeft(s: string): (r: string)
    ensures |r| <= |s|
    ensures r != "" ==> !IsSpace(r[0])
  {
    if s != "" && IsSpace(s[0]) then TrimLeft(s[1..]) else s
  }

  function TrimRight(s: string): (r: string)
    ensures |r| <= |s|
    ensures r != "" ==> !IsSpace(r[|r| - 1])
    ensures s != "" && !IsSpace(s[0]) ==> r != "" && r[0] == s[0]
  {
    if s != "" && IsSpace(s[|s| - 1]) then TrimRight(s[..|s| - 1]) else s
  }

  function Trim(s: string): (r: string)
    ensures Trimmed(r)
    ensures |r| <= |s|
  {
    TrimRight(TrimLeft(s))
  }

  // ----- sentences -----

  /** The number of characters up to and including the first delimiter. */
  function Span(s: string): (n: nat)
    ensures n <= |s|
    ensures s != "" ==> 0 < n
    ensures DelimOnlyAtEnd(s[..n])
    ensures n < |s| ==> IsDelim(s[n - 1])
  {
    if s == "" then 0 else if IsDelim(s[0]) then 1 else 1 + Span(s[1..])
  }

  /** The raw pieces: each one runs through the next delimiter, the last one may lack it. */
  function Segments(s: string): seq<string>
    decreases |s|
  {
    if s == "" then [] else [s[..Span(s)]] + Segments(s[Span(s)..])
  }

  /** What the sentence buffer makes of one raw piece. */
  function Clean(seg: string): string {
    Trim(Take(seg, MAX_SENTENCE - 1))
  }

  function Keep(segs: seq<string>): seq<string> {
    if segs == [] then []
    else if Clean(segs[0]) == "" then Keep(segs[1..])
    else [Clean(segs[0])] + Keep(segs[1..])
  }

  function Sentences(content: string, max: nat): seq<string> {
    Take(Keep(Segments(content)), max)
  }

  /** The sentence list of a document, with the limits of the program. */
  function Parse(content: string): seq<string> {
    Sentences(content, MAX_SENTENCES)
  }

  // ----- words -----

  predicate IsWord(w: string) {
    w != "" && forall i :: 0 <= i < |w| ==> !IsSpace(w[i])
  }

  function WordSpan(s: string): (n: nat)
    ensures n <= |s|
    ensures s != "" && !IsSpace(s[0]) ==> 0 < n
    ensures forall i :: 0 <= i < n ==> !IsSpace(s[i])
    ensures n < |s| ==> IsSpace(s[n])
  {
    if s == "" || IsSpace(s[0]) then 0 else 1 + WordSpan(s[1..])
  }

  /** The maximal runs of non-space characters. */
  function Tokens(s: string): seq<string>
    decreases |s|
  {
    var t := TrimLeft(s);
    if t == "" then [] else [t[..WordSpan(t)]] + Tokens(t[WordSpan(t)..])
  }

  lemma {:induction false} TokensAreWords(s: string)
    ensures forall i :: 0 <= i < |Tokens(s)| ==> IsWord(Tokens(s)[i])
    decreases |s|
  {
    var t := TrimLeft(s);
    if t != "" {
      var n := WordSpan(t);
      assert IsWord(t[..n]);
      TokensAreWords(t[n..]);
      assert Tokens(s) == [t[..n]] + Tokens(t[n..]);
    }
  }

  function ClipWords(ws: seq<string>): (r: seq<string>)
    ensures |r| == |ws|
    ensures forall i :: 0 <= i < |ws| ==> r[i] == Take(ws[i], MAX_WORD - 1)
  {
    if ws == [] then [] else [Take(ws[0], MAX_WORD - 1)] + ClipWords(ws[1..])
  }

  function WordsUpTo(sentence: string, max: nat): seq<string> {
    Take(ClipWords(Tokens(sentence)), max)
  }

  /** The word list of a sentence, with the limits of the program. */
  function Words(sentence: string): seq<string> {
    WordsUpTo(sentence, MAX_WORDS_PER_SENTENCE)
  }

  // ----- trim: the one trimmed core between two blank runs -----

  lemma {:induction false} TrimLeftUnique(a: string, t: string)
    requires Blank(a)
    requires t != "" ==> !IsSpace(t[0])
    ensures TrimLeft(a + t) == t
  {
    if a == "" {
      assert a + t == t;
    } else {
      assert (a + t)[1..] == a[1..] + t;
      TrimLeftUnique(a[1..], t);
    }
  }

  lemma {:induction false} TrimRightUnique(t: string, b: string)
    requires Blank(b)
    requires t != "" ==> !IsSpace(t[|t| - 1])
    ensures TrimRight(t + b) == t
  {
    if b == "" {
      assert t + b == t;
    } else {
      assert (t + b)[..|t + b| - 1] == t + b[..|b| - 1];
      TrimRightUnique(t, b[..|b| - 1]);
    }
  }

  /** `trim` is the only way to split a string into blanks, a trimmed core, and blanks. */
  lemma TrimUnique(a: string, t: string, b: string)
    requires Blank(a) && Blank(b) && Trimmed(t)
    ensures Trim(a + t + b) == t
  {
    if t == "" {
      assert a + t + b == (a + b) + "";
      TrimLeftUnique(a + b, "");
    } else {
      assert a + t + b == a + (t + b);
      TrimLeftUnique(a, t + b);
      TrimRightUnique(t, b);
    }
  }

  lemma {:induction false} TrimLeftSplits(s: string) returns (a: string)
    ensures Blank(a) && s == a + TrimLeft(s)
  {
    if s != "" && IsSpace(s[0]) {
      a := TrimLeftSplits(s[1..]);
      a := [s[0]] + a;
    } else {
      a := "";
    }
  }

  lemma {:induction false} TrimRightSplits(s: string) returns (b: string)
    ensures Blank(b) && s == TrimRight(s) + b
  {
    if s != "" && IsSpace(s[|s| - 1]) {
      b := TrimRightSplits(s[..|s| - 1]);
      b := b + [s[|s| - 1]];
    } else {
      b := "";
    }
  }

  /** ... and it does split the string that way. */
  lemma TrimSplits(s: string) returns (a: string, b: string)
    ensures Blank(a) && Blank(b) && s == a + Trim(s) + b
  {
    a := TrimLeftSplits(s);
    b := TrimRightSplits(TrimLeft(s));
  }

  // ----- joins -----

  lemma {:induction false} JoinAppend(ss: seq<string>, x: string)
    ensures Join(ss + [x]) == if ss == [] then x else Join(ss) + " " + x
  {
    if |ss| >= 2 {
      assert (ss + [x])[1..] == ss[1..] + [x];
      JoinAppend(ss[1..], x);
    } else if |ss| == 1 {
      assert (ss + [x])[1..] == [x];
    }
  }

  lemma {:induction false} ConcatAppend(a: seq<string>, b: seq<string>)
    ensures Concat(a + b) == Concat(a) + Concat(b)
  {
    if a == [] {
      assert a + b == b;
    } else {
      assert (a + b)[1..] == a[1..] + b;
      ConcatAppend(a[1..], b);
    }
  }

  lemma {:induction false} JoinLength(ss: seq<string>)
    ensures |Join(ss)| == |Concat(ss)| + (if |ss| == 0 then 0 else |ss| - 1)
  {
    if |ss| >= 2 {
      JoinLength(ss[1..]);
    } else if |ss| == 1 {
      assert Concat(ss[1..]) == "";
    }
  }

  function Spaced(ss: seq<string>): (r: seq<string>)
    ensures |r| == |ss|
    ensures forall i :: 0 <= i < |ss| ==> r[i] == " " + ss[i]
  {
    if ss == [] then [] else [" " + ss[0]] + Spaced(ss[1..])
  }

  lemma {:induction false} JoinIsSpaced(ss: seq<string>)
    requires ss != []
    ensures Join(ss) == ss[0] + Concat(Spaced(ss[1..]))
  {
    if |ss| > 1 {
      JoinIsSpaced(ss[1..]);
    }
  }

  // ----- segments -----

  lemma {:induction false} SpanFirst(x: string, rest: string)
    requires DelimOnlyAtEnd(x) && EndsInDelim(x)
    ensures Span(x + rest) == |x|
  {
    if |x| > 1 {
      assert (x + rest)[1..] == x[1..] + rest;
      SpanFirst(x[1..], rest);
    }
  }

  lemma {:induction false} SpanAll(x: string)
    requires DelimOnlyAtEnd(x)
    ensures Span(x) == |x|
  {
    if |x| > 1 {
      SpanAll(x[1..]);
    }
  }

  lemma SegmentsFirst(x: string, rest: string)
    requires DelimOnlyAtEnd(x) && EndsInDelim(x)
    ensures Segments(x + rest) == [x] + Segments(rest)
  {
    SpanFirst(x, rest);
    assert (x + rest)[..|x|] == x && (x + rest)[|x|..] == rest;
  }

  lemma SegmentsOne(x: string)
    requires DelimOnlyAtEnd(x) && x != ""
    ensures Segments(x) == [x]
  {
    SpanAll(x);
    assert x[..|x|] == x && x[|x|..] == "";
  }

  lemma {:induction false} SegmentsConcat(s: string)
    ensures Concat(Segments(s)) == s
    decreases |s|
  {
    if s != "" {
      SegmentsConcat(s[Span(s)..]);
      assert Segments(s)[1..] == Segments(s[Span(s)..]);
    }
  }

  lemma {:induction false} SegmentsShape(s: string)
    ensures forall i :: 0 <= i < |Segments(s)| ==> DelimOnlyAtEnd(Segments(s)[i]) && Segments(s)[i] != ""
    ensures forall i :: 0 <= i < |Segments(s)| - 1 ==> EndsInDelim(Segments(s)[i])
    decreases |s|
  {
    if s != "" {
      SegmentsShape(s[Span(s)..]);
    }
  }

  lemma {:induction false} KeepAppend(a: seq<string>, b: seq<string>)
    ensures Keep(a + b) == Keep(a) + Keep(b)
  {
    if a == [] {
      assert a + b == b;
    } else {
      assert (a + b)[1..] == a[1..] + b;
      KeepAppend(a[1..], b);
    }
  }

  lemma {:induction false} KeepLength(segs: seq<string>)
    ensures |Keep(segs)| <= |segs|
  {
    if segs != [] {
      KeepLength(segs[1..]);
    }
  }

  // ----- the normal form of a parsed sentence list -----

  predicate IsSentence(s: string) {
    s != "" && Trimmed(s) && DelimOnlyAtEnd(s) && |s| <= MAX_SENTENCE - 1
  }

  predicate AllSentences(ss: seq<string>) {
    forall i :: 0 <= i < |ss| ==> IsSentence(ss[i])
  }

  lemma CleanIsSentence(seg: string)
    requires DelimOnlyAtEnd(seg)
    ensures Clean(seg) == "" || IsSentence(Clean(seg))
  {
    var c := Take(seg, MAX_SENTENCE - 1);
    var a, b := TrimSplits(c);
    forall i | 0 <= i < |Clean(seg)| - 1
      ensures !IsDelim(Clean(seg)[i])
    {
      assert Clean(seg)[i] == c[|a| + i] == seg[|a| + i];
    }
  }

  lemma {:induction false} KeepIsSentences(segs: seq<string>)
    requires forall i :: 0 <= i < |segs| ==> DelimOnlyAtEnd(segs[i])
    ensures AllSentences(Keep(segs))
  {
    if segs != [] {
      CleanIsSentence(segs[0]);
      KeepIsSentences(segs[1..]);
    }
  }

  /** Every parsed list consists of trimmed, non-empty sentences that hold a delimiter only at
      their end, fit their buffer, and are at most `max` many. */
  lemma ParseNormalForm(content: string, max: nat)
    ensures AllSentences(Sentences(content, max))
    ensures |Sentences(content, max)| <= max
  {
    SegmentsShape(content);
    KeepIsSentences(Segments(content));
  }

  // ----- the sentence round trip and its exact limit -----

  /** Nothing is lost when the list is joined with spaces and parsed again: only the last sentence
      may lack its delimiter, and a sentence after the first shares its buffer with the space. */
  predicate Canonical(ss: seq<string>) {
    && (forall i :: 0 <= i < |ss| - 1 ==> EndsInDelim(ss[i]))
    && (forall i :: 1 <= i < |ss| ==> |ss[i]| <= MAX_SENTENCE - 2)
  }

  lemma {:induction false} SegmentsOfSpaced(rest: seq<string>)
    requires AllSentences(rest)
    requires forall i :: 0 <= i < |rest| - 1 ==> EndsInDelim(rest[i])
    ensures Segments(Concat(Spaced(rest))) == Spaced(rest)
  {
    if rest != [] {
      var x := " " + rest[0];
      if |rest| == 1 {
        assert Concat(Spaced(rest)) == x;
        SegmentsOne(x);
      } else {
        SegmentsOfSpaced(rest[1..]);
        SegmentsFirst(x, Concat(Spaced(rest[1..])));
      }
    }
  }

  lemma SegmentsOfRest(x: string, rest: seq<string>)
    requires IsSentence(x) && (rest != [] ==> EndsInDelim(x))
    requires Segments(Concat(Spaced(rest))) == Spaced(rest)
    ensures Segments(x + Concat(Spaced(rest))) == [x] + Spaced(rest)
  {
    if rest == [] {
      assert x + "" == x && [x] + [] == [x];
      SegmentsOne(x);
    } else {
      SegmentsFirst(x, Concat(Spaced(rest)));
    }
  }

  lemma SegmentsOfJoin(ss: seq<string>)
    requires AllSentences(ss) && ss != []
    requires forall i :: 0 <= i < |ss| - 1 ==> EndsInDelim(ss[i])
    ensures Segments(Join(ss)) == [ss[0]] + Spaced(ss[1..])
  {
    JoinIsSpaced(ss);
    SegmentsOfSpaced(ss[1..]);
    SegmentsOfRest(ss[0], ss[1..]);
  }

  lemma CleanSpaced(s: string)
    requires IsSentence(s)
    ensures |s| <= MAX_SENTENCE - 2 ==> Clean(" " + s) == s
    ensures |s| == MAX_SENTENCE - 1 ==> 0 < |Clean(" " + s)| < |s|
  {
    if |s| <= MAX_SENTENCE - 2 {
      TrimUnique(" ", s, "");
      assert " " + s + "" == " " + s;
    } else {
      var cut := s[..MAX_SENTENCE - 2];
      assert Take(" " + s, MAX_SENTENCE - 1) == " " + cut;
      TrimLeftUnique(" ", cut);
      assert !IsSpace(cut[0]);
    }
  }

  lemma CleanSentence(s: string)
    requires IsSentence(s)
    ensures Clean(s) == s
  {
    TrimUnique("", s, "");
    assert "" + s + "" == s;
  }

  lemma {:induction false} KeepSpaced(rest: seq<string>)
    requires AllSentences(rest)
    ensures |Keep(Spaced(rest))| == |rest|
    ensures forall i :: 0 <= i < |rest| ==> Keep(Spaced(rest))[i] == Clean(" " + rest[i])
  {
    if rest != [] {
      CleanSpaced(rest[0]);
      KeepSpaced(rest[1..]);
      assert Spaced(rest)[0] == " " + rest[0] && Spaced(rest)[1..] == Spaced(rest[1..]);
      assert Keep(Spaced(rest)) == [Clean(" " + rest[0])] + Keep(Spaced(rest[1..]));
    }
  }

  /** The number of raw pieces is bounded by the number of delimiters, plus one for an open end. */
  function Delims(s: string): nat {
    if s == "" then 0 else (if IsDelim(s[0]) then 1 else 0) + Delims(s[1..])
  }

  lemma {:induction false} DelimsAppend(a: string, b: string)
    ensures Delims(a + b) == Delims(a) + Delims(b)
  {
    if a == "" {
      assert a + b == b;
    } else {
      assert (a + b)[1..] == a[1..] + b;
      DelimsAppend(a[1..], b);
    }
  }

  lemma {:induction false} DelimsOfSentence(s: string)
    requires DelimOnlyAtEnd(s)
    ensures Delims(s) == if EndsInDelim(s) then 1 else 0
  {
    if s != "" {
      DelimsOfSentence(s[1..]);
    }
  }

  lemma {:induction false} SegmentsCount(s: string)
    ensures |Segments(s)| == Delims(s) + (if s != "" && !EndsInDelim(s) then 1 else 0)
    decreases |s|
  {
    if s != "" {
      var x, rest := s[..Span(s)], s[Span(s)..];
      assert s == x + rest;
      DelimsAppend(x, rest);
      DelimsOfSentence(x);
      SegmentsCount(rest);
    }
  }

  function Closed(ss: seq<string>): nat {
    if ss == [] then 0 else (if EndsInDelim(ss[0]) then 1 else 0) + Closed(ss[1..])
  }

  lemma {:induction false} JoinCounts(ss: seq<string>)
    requires AllSentences(ss) && ss != []
    ensures Delims(Join(ss)) == Closed(ss)
    ensures Join(ss) != "" && EndsInDelim(Join(ss)) == EndsInDelim(ss[|ss| - 1])
  {
    DelimsOfSentence(ss[0]);
    if |ss| > 1 {
      JoinCounts(ss[1..]);
      DelimsAppend(ss[0] + " ", Join(ss[1..]));
      DelimsAppend(ss[0], " ");
      assert Delims(" ") == 0 by { assert " "[1..] == ""; }
    } else {
      assert Closed(ss[1..]) == 0;
    }
  }

  lemma {:induction false} ClosedBound(ss: seq<string>, k: nat)
    requires k < |ss| && !EndsInDelim(ss[k])
    ensures Closed(ss) <= |ss| - 1
    ensures k < |ss| - 1 && !EndsInDelim(ss[|ss| - 1]) ==> Closed(ss) <= |ss| - 2
  {
    ClosedAtMost(ss[1..]);
    if k == 0 {
      if |ss| > 1 && !EndsInDelim(ss[|ss| - 1]) {
        ClosedBound(ss[1..], |ss| - 2);
      }
    } else {
      ClosedBound(ss[1..], k - 1);
    }
  }

  lemma {:induction false} ClosedAtMost(ss: seq<string>)
    ensures Closed(ss) <= |ss|
  {
    if ss != [] {
      ClosedAtMost(ss[1..]);
    }
  }

  lemma MergedSentencesAreLost(ss: seq<string>, k: nat)
    requires AllSentences(ss)
    requires k < |ss| - 1 && !EndsInDelim(ss[k])
    ensures |Parse(Join(ss))| < |ss|
  {
    JoinCounts(ss);
    SegmentsCount(Join(ss));
    ClosedBound(ss, k);
    KeepLength(Segments(Join(ss)));
  }

  lemma KeepOfJoin(ss: seq<string>)
    requires AllSentences(ss) && ss != []
    requires forall i :: 0 <= i < |ss| - 1 ==> EndsInDelim(ss[i])
    ensures Keep(Segments(Join(ss))) == [ss[0]] + Keep(Spaced(ss[1..]))
  {
    SegmentsOfJoin(ss);
    CleanSentence(ss[0]);
    var segs := [ss[0]] + Spaced(ss[1..]);
    assert segs[0] == ss[0] && segs[1..] == Spaced(ss[1..]);
  }

  lemma ShortIsKept(rest: seq<string>)
    requires AllSentences(rest)
    requires forall i :: 0 <= i < |rest| ==> |rest[i]| <= MAX_SENTENCE - 2
    ensures Keep(Spaced(rest)) == rest
  {
    KeepSpaced(rest);
    forall i | 0 <= i < |rest| ensures Clean(" " + rest[i]) == rest[i] {
      CleanSpaced(rest[i]);
    }
  }

  lemma CanonicalIsKept(ss: seq<string>)
    requires AllSentences(ss) && 0 < |ss| <= MAX_SENTENCES
    requires Canonical(ss)
    ensures Parse(Join(ss)) == ss
  {
    var rest := ss[1..];
    KeepOfJoin(ss);
    ShortIsKept(rest);
    assert ss == [ss[0]] + rest;
  }

  lemma FullSentenceIsCut(ss: seq<string>, k: nat)
    requires AllSentences(ss) && |ss| <= MAX_SENTENCES
    requires forall i :: 0 <= i < |ss| - 1 ==> EndsInDelim(ss[i])
    requires 1 <= k < |ss| && |ss[k]| == MAX_SENTENCE - 1
    ensures Parse(Join(ss)) != ss
  {
    KeepOfJoin(ss);
    KeepSpaced(ss[1..]);
    CleanSpaced(ss[k]);
    var p := [ss[0]] + Keep(Spaced(ss[1..]));
    assert p[k] == Keep(Spaced(ss[1..]))[k - 1] == Clean(" " + ss[k]);
  }

  /** Parsing the joined list returns the list exactly when it is canonical. */
  lemma RoundTrip(ss: seq<string>)
    requires AllSentences(ss) && |ss| <= MAX_SENTENCES
    ensures Parse(Join(ss)) == ss <==> Canonical(ss)
  {
    if ss == [] {
    } else if Canonical(ss) {
      CanonicalIsKept(ss);
    } else if k :| 0 <= k < |ss| - 1 && !EndsInDelim(ss[k]) {
      MergedSentencesAreLost(ss, k);
    } else {
      var k :| 1 <= k < |ss| && |ss[k]| > MAX_SENTENCE - 2;
      FullSentenceIsCut(ss, k);
    }
  }

  /** For any list of strings at all. */
  lemma RoundTripExactly(ss: seq<string>)
    ensures Parse(Join(ss)) == ss <==> AllSentences(ss) && |ss| <= MAX_SENTENCES && Canonical(ss)
  {
    ParseNormalForm(Join(ss), MAX_SENTENCES);
    if AllSentences(ss) && |ss| <= MAX_SENTENCES {
      RoundTrip(ss);
    }
  }

  /** For the sentence list of any text at all, however long: rebuilding and parsing again gives the
      same list if and only if the list is canonical. */
  lemma ParseJoinParse(content: string)
    ensures Parse(Join(Parse(content))) == Parse(content) <==> Canonical(Parse(content))
  {
    ParseNormalForm(content, MAX_SENTENCES);
    RoundTrip(Parse(content));
  }
}
