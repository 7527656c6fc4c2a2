/** The client's WRITE session between reading a document and sending it back (`cmd_write`). */
module ClientWrite {
  import opened Options
  import opened Scan
  import opened Text
  import opened TextLoops
  import opened WordEdit
  import opened PlainText

  const MAX_LINE: nat := 256

  /** `sscanf(trimmed, "%d %s", ...)` */
  function ParseLine(line: string): Option<(int, string)> {
    match ScanInt(Trim(line))
    case None => None
    case Some((index, rest)) =>
      match ScanToken(rest)
      case None => None
      case Some((word, _)) => Some((index, word))
  }

  predicate EndsSession(line: string) {
    Trim(line) == "ETIRW"
  }

  /** Replace a word, or append one directly after the last; anything else is refused. */
  function ApplyLine(ws: seq<string>, line: string): seq<string> {
    match ParseLine(line)
    case None => ws
    case Some((index, word)) =>
      if 0 <= index < |ws| && index < MAX_WORDS_PER_SENTENCE then ws[index := word]
      else if index == |ws| && index < MAX_WORDS_PER_SENTENCE then ws + [word]
      else ws
  }

  /** The lines up to ETIRW or the end of input. */
  function ApplyLines(ws: seq<string>, lines: seq<string>): seq<string>
    decreases |lines|
  {
    if lines == [] || EndsSession(lines[0]) then ws else ApplyLines(ApplyLine(ws, lines[0]), lines[1..])
  }

  /** The sentences the session works on; an empty document gets an empty sentence 0. */
  function SessionSentences(content: string, n: nat): (r: Option<seq<string>>)
    ensures r.Some? ==> n < |r.value|
  {
    var ss := Parse(content);
    if n > |ss| || (n == |ss| && n > 0) then None
    else if n == |ss| then Some([""])
    else Some(ss)
  }

  /** The document the session sends back. */
  function ClientEdit(content: string, n: nat, lines: seq<string>): Option<string> {
    match SessionSentences(content, n)
    case None => None
    case Some(ss) => Some(Join(ss[n := Join(ApplyLines(Words(ss[n]), lines))]))
  }

  // ----- typed lines -----

  /** What the user types to put word `w` at position `i`. */
  function PrintLine(i: int, w: string): string {
    PrintInt(i) + (" " + w) + "\n"
  }

  lemma TrimmedLine(i: int, w: string)
    requires IsToken(w)
    ensures Trim(PrintLine(i, w)) == PrintInt(i) + (" " + w)
    ensures !EndsSession(PrintLine(i, w))
  {
    var core, number := PrintInt(i) + (" " + w), PrintInt(i);
    assert IsDigit(number[0]) || number[0] == '-';
    assert core[0] == number[0] && core[|core| - 1] == w[|w| - 1] && !IsCSpace(w[|w| - 1]);
    TrimUnique("", core, "\n");
    assert "" + core + "\n" == PrintLine(i, w);
  }

  /** A typed line is read as it was meant exactly when its word has no blank inside, of any kind. */
  lemma LineRoundTrip(i: int, w: string)
    ensures ParseLine(PrintLine(i, w)) == Some((i, w)) <==> IsToken(w)
  {
    if IsToken(w) {
      TrimmedLine(i, w);
      IntRoundTrip(i, " " + w);
      ScanTokenOf(" ", w, "");
      assert w + "" == w;
    } else if ScanInt(Trim(PrintLine(i, w))).Some? {
      ScannedToken(ScanInt(Trim(PrintLine(i, w))).value.1);
    }
  }

  lemma TypedWord(ws: seq<string>, i: nat, w: string)
    requires i < |ws| <= MAX_WORDS_PER_SENTENCE && IsToken(w)
    ensures ApplyLines(ws, [PrintLine(i, w)]) == ws[i := w]
    ensures |PrintLine(i, w)| < MAX_LINE && |w| < MAX_WORD ==> LinesFit([PrintLine(i, w)])
  {
    LineRoundTrip(i, w);
    TrimmedLine(i, w);
    assert [PrintLine(i, w)][1..] == [];
    assert ApplyLines(ws[i := w], []) == ws[i := w];
  }

  lemma AppendedLine(ws: seq<string>, w: string)
    requires |ws| < MAX_WORDS_PER_SENTENCE && IsToken(w)
    ensures ApplyLine(ws, PrintLine(|ws|, w)) == ws + [w] && !EndsSession(PrintLine(|ws|, w))
  {
    LineRoundTrip(|ws|, w);
    TrimmedLine(|ws|, w);
  }

  lemma NextLine(ws: seq<string>, line: string, more: seq<string>)
    requires !EndsSession(line)
    ensures ApplyLines(ws, [line] + more) == ApplyLines(ApplyLine(ws, line), more)
  {
    assert ([line] + more)[1..] == more;
  }

  /** A word typed at the next free position is appended. */
  lemma AppendedWord(ws: seq<string>, w: string, more: seq<string>)
    requires |ws| < MAX_WORDS_PER_SENTENCE && IsToken(w)
    ensures ApplyLines(ws, [PrintLine(|ws|, w)] + more) == ApplyLines(ws + [w], more)
    ensures ApplyLines(ws, [PrintLine(|ws|, w)]) == ws + [w]
  {
    AppendedLine(ws, w);
    NextLine(ws, PrintLine(|ws|, w), more);
    NextLine(ws, PrintLine(|ws|, w), []);
    assert [PrintLine(|ws|, w)] + [] == [PrintLine(|ws|, w)];
  }

  /** A position that leaves a gap, a negative one, and one beyond the limit are refused. */
  lemma MisplacedWord(ws: seq<string>, i: int, w: string)
    requires IsToken(w) && |ws| <= MAX_WORDS_PER_SENTENCE
    requires i < 0 || i > |ws| || i >= MAX_WORDS_PER_SENTENCE
    ensures ApplyLine(ws, PrintLine(i, w)) == ws
  {
    LineRoundTrip(i, w);
  }

  /** Only a line that begins with a number and a word does anything. */
  lemma UnreadableLine(ws: seq<string>, line: string)
    requires ParseLine(line).None?
    ensures ApplyLine(ws, line) == ws
  {
  }

  /** ETIRW alone on its line, blanks aside, and nothing else ends the session. */
  lemma EndsExactly(line: string)
    ensures EndsSession(line) <==> exists a, b :: Blank(a) && Blank(b) && line == a + "ETIRW" + b
  {
    if EndsSession(line) {
      var a, b := TrimSplits(line);
    }
    if a, b :| Blank(a) && Blank(b) && line == a + "ETIRW" + b {
      TrimUnique(a, "ETIRW", b);
    }
  }

  predicate AllTokens(ts: seq<string>) {
    forall i :: 0 <= i < |ts| ==> IsToken(ts[i])
  }

  /** The lines that type these words one after the other, from position `first` on. */
  function Typing(ts: seq<string>, first: nat): seq<string> {
    if ts == [] then [] else [PrintLine(first, ts[0])] + Typing(ts[1..], first + 1)
  }

  lemma TypingFirst(ws: seq<string>, ts: seq<string>, first: nat, more: seq<string>)
    ensures ts == [] ==> Typing(ts, first) + more == more && ws + ts == ws
    ensures ts != [] ==>
              && Typing(ts, first) + more == [PrintLine(first, ts[0])] + (Typing(ts[1..], first + 1) + more)
              && (ws + [ts[0]]) + ts[1..] == ws + ts
  {
  }

  lemma {:induction false} TypedWords(ws: seq<string>, ts: seq<string>, more: seq<string>)
    requires AllTokens(ts) && |ws| + |ts| <= MAX_WORDS_PER_SENTENCE
    ensures ApplyLines(ws, Typing(ts, |ws|) + more) == ApplyLines(ws + ts, more)
    decreases |ts|
  {
    TypingFirst(ws, ts, |ws|, more);
    if ts != [] {
      AppendedWord(ws, ts[0], Typing(ts[1..], |ws| + 1) + more);
      TypedWords(ws + [ts[0]], ts[1..], more);
    }
  }

  lemma EmptyDocument()
    ensures SessionSentences("", 0) == Some([""]) && Words("") == []
  {
    assert Segments("") == [] && Keep([]) == [];
  }

  /** Words typed into an empty document are the document, whatever is typed after ETIRW. */
  lemma NewDocument(ts: seq<string>, rest: seq<string>)
    requires AllTokens(ts) && |ts| <= MAX_WORDS_PER_SENTENCE
    requires rest != [] ==> EndsSession(rest[0])
    ensures ClientEdit("", 0, Typing(ts, 0) + rest) == Some(Join(ts))
  {
    EmptyDocument();
    TypedWords([], ts, rest);
    assert [] + ts == ts;
    assert [""][0 := Join(ts)] == [Join(ts)];
  }

  /** Words typed behind the last one of sentence `n` are appended to it. */
  lemma GrowingSentence(content: string, n: nat, ts: seq<string>, rest: seq<string>)
    requires n < |Parse(content)| && AllTokens(ts) && |Words(Parse(content)[n])| + |ts| <= MAX_WORDS_PER_SENTENCE
    requires rest != [] ==> EndsSession(rest[0])
    ensures var ws := Words(Parse(content)[n]);
            ClientEdit(content, n, Typing(ts, |ws|) + rest) == Some(Join(Parse(content)[n := Join(ws + ts)]))
  {
    TypedWords(Words(Parse(content)[n]), ts, rest);
  }

  /** A session is refused exactly when it names a sentence that is not there; an empty document counts
      as one empty sentence. */
  lemma RefusedExactly(content: string, n: nat, lines: seq<string>)
    ensures ClientEdit(content, n, lines).None? <==> n >= |Parse(content)| && (n > 0 || Parse(content) != [])
  {
  }

  // ----- the fixed buffers of a session -----

  /** `fgets` hands out at most 255 characters at a time; a scanned word has 128 places. */
  predicate LinesFit(lines: seq<string>)
    decreases |lines|
  {
    lines != [] ==>
      && |lines[0]| < MAX_LINE
      && (!EndsSession(lines[0]) ==>
            && (ParseLine(lines[0]).Some? ==> |ParseLine(lines[0]).value.1| < MAX_WORD)
            && LinesFit(lines[1..]))
  }

  /** Every line, every word, the rebuilt sentence and the rebuilt document fit their buffers. */
  predicate FitsSession(content: string, n: nat, lines: seq<string>) {
    && LinesFit(lines)
    && (SessionSentences(content, n).Some? ==>
          && |Join(ApplyLines(Words(SessionSentences(content, n).value[n]), lines))| < MAX_SENTENCE
          && |ClientEdit(content, n, lines).value| < BUFFER_SIZE)
  }

  // ----- what a session keeps -----

  predicate WordsFit(ws: seq<string>) {
    forall i :: 0 <= i < |ws| ==> |ws[i]| < MAX_WORD
  }

  lemma {:induction false} ApplyLinesBound(ws: seq<string>, lines: seq<string>)
    requires |ws| <= MAX_WORDS_PER_SENTENCE
    ensures |ws| <= |ApplyLines(ws, lines)| <= MAX_WORDS_PER_SENTENCE
    ensures WordsFit(ws) && LinesFit(lines) ==> WordsFit(ApplyLines(ws, lines))
    decreases |lines|
  {
    if lines != [] && !EndsSession(lines[0]) {
      ApplyLinesBound(ApplyLine(ws, lines[0]), lines[1..]);
    }
  }

  /** A session whose words still form one sentence changes that sentence and no other; reading the
      document back gives the edited list exactly when that list is canonical. */
  lemma SessionFrame(content: string, n: nat, lines: seq<string>)
    requires SessionSentences(content, n).Some?
    requires var ss := SessionSentences(content, n).value;
             var ws := ApplyLines(Words(ss[n]), lines);
             WordsOfSentence(ws) && FitsSession(content, n, lines)
    ensures var ss := SessionSentences(content, n).value;
            var ss' := ss[n := Join(ApplyLines(Words(ss[n]), lines))];
            && ClientEdit(content, n, lines) == Some(Join(ss'))
            && (Parse(Join(ss')) == ss' <==> Canonical(ss'))
  {
    var ss := SessionSentences(content, n).value;
    var ws := ApplyLines(Words(ss[n]), lines);
    ParseNormalForm(content, MAX_SENTENCES);
    JoinIsSentence(ws);
    RoundTrip(ss[n := Join(ws)]);
  }

  /** For any session whatsoever: the document reads back as the edited list exactly when the new
      sentence is one sentence and the list is canonical. */
  lemma SessionReadsBackExactly(content: string, n: nat, lines: seq<string>)
    requires SessionSentences(content, n).Some? && FitsSession(content, n, lines)
    ensures var ss := SessionSentences(content, n).value;
            var ss' := ss[n := Join(ApplyLines(Words(ss[n]), lines))];
            && ClientEdit(content, n, lines) == Some(Join(ss'))
            && (Parse(Join(ss')) == ss' <==> IsSentence(ss'[n]) && Canonical(ss'))
  {
    var ss := SessionSentences(content, n).value;
    ParseNormalForm(content, MAX_SENTENCES);
    RoundTripExactly(ss[n := Join(ApplyLines(Words(ss[n]), lines))]);
  }

  /** The sentence that a session sends back in place of sentence `n`. */
  function NewSentence(content: string, n: nat, lines: seq<string>): string
    requires n < |Parse(content)|
  {
    Join(ApplyLines(Words(Parse(content)[n]), lines))
  }

  predicate StaysCanonical(content: string, n: nat, lines: seq<string>) {
    && n < |Parse(content)| && FitsSession(content, n, lines)
    && IsSentence(NewSentence(content, n, lines))
    && Canonical(Parse(content)[n := NewSentence(content, n, lines)])
  }

  lemma SerialSessions(content: string, n: nat, m: nat, l1: seq<string>, l2: seq<string>)
    requires n != m && StaysCanonical(content, n, l1) && StaysCanonical(content, m, l2)
    ensures var ss := Parse(content);
            var both := ss[n := NewSentence(content, n, l1)][m := NewSentence(content, m, l2)];
            && Parse(ClientEdit(content, n, l1).value) == ss[n := NewSentence(content, n, l1)]
            && ClientEdit(ClientEdit(content, n, l1).value, m, l2) == Some(Join(both))
            && AllSentences(both) && Canonical(both)
  {
    var ss := Parse(content);
    ParseNormalForm(content, MAX_SENTENCES);
    var ss1 := ss[n := NewSentence(content, n, l1)];
    RoundTrip(ss1);
    assert ss1[m] == ss[m];
    var both := ss1[m := NewSentence(content, m, l2)];
    var ss2 := ss[m := NewSentence(content, m, l2)];
    forall i | 0 <= i < |both| - 1 ensures EndsInDelim(both[i]) {
      assert both[i] == if i == m then ss2[i] else ss1[i];
    }
    forall i | 1 <= i < |both| ensures |both[i]| <= MAX_SENTENCE - 2 {
      assert both[i] == if i == m then ss2[i] else ss1[i];
    }
  }

  /** Two sessions that read the same document but edit different sentences hold different locks, and
      each sends the whole document: the second write keeps the first one's edit exactly when that
      edit changed nothing. */
  lemma OtherSentenceIsLost(content: string, n: nat, m: nat, l1: seq<string>, l2: seq<string>)
    requires n != m && StaysCanonical(content, n, l1) && StaysCanonical(content, m, l2)
    requires FitsSession(ClientEdit(content, n, l1).value, m, l2)
    ensures ClientEdit(content, m, l2) == ClientEdit(ClientEdit(content, n, l1).value, m, l2)
            <==> NewSentence(content, n, l1) == Parse(content)[n]
  {
    var ss := Parse(content);
    ParseNormalForm(content, MAX_SENTENCES);
    SerialSessions(content, n, m, l1, l2);
    var x := NewSentence(content, n, l1);
    var ss2 := ss[m := NewSentence(content, m, l2)];
    var both := ss[n := x][m := NewSentence(content, m, l2)];
    RoundTrip(ss2);
    RoundTrip(both);
    assert both[n] == x && ss2[n] == ss[n];
    if x == ss[n] {
      assert both == ss2;
    }
  }

  // ----- the session as it is written -----

  method EditLoop(words: array<string>, wordCount: nat, lines: seq<string>) returns (count: nat)
    requires words.Length == MAX_WORDS_PER_SENTENCE && wordCount <= words.Length
    requires LinesFit(lines) && WordsFit(words[..wordCount])
    modifies words
    ensures count <= words.Length && words[..count] == ApplyLines(old(words[..wordCount]), lines)
    ensures WordsFit(words[..count])
  {
    count := wordCount;
    ghost var start := words[..wordCount];
    var i := 0;
    assert lines[0..] == lines;
    while i < |lines|
      invariant 0 <= i <= |lines| && count <= words.Length
      invariant ApplyLines(words[..count], lines[i..]) == ApplyLines(start, lines)
      invariant LinesFit(lines[i..]) && WordsFit(words[..count])
    {
      if EndsSession(lines[i]) {
        return;
      }
      count := EditOneLine(words, count, lines[i]);
      assert lines[i..][1..] == lines[i + 1..];
      i := i + 1;
    }
  }

  method EditOneLine(words: array<string>, wordCount: nat, line: string) returns (count: nat)
    requires words.Length == MAX_WORDS_PER_SENTENCE && wordCount <= words.Length
    requires ParseLine(line).Some? ==> |ParseLine(line).value.1| < MAX_WORD
    modifies words
    ensures count <= words.Length && words[..count] == ApplyLine(old(words[..wordCount]), line)
  {
    count := wordCount;
    match ParseLine(line) {
      case None =>
      case Some((index, word)) =>
        if 0 <= index && index <= wordCount && index < MAX_WORDS_PER_SENTENCE {
          words[index] := word;
          if index == wordCount {
            count := wordCount + 1;
          }
          assert words[..count] == ApplyLine(old(words[..wordCount]), line);
        }
    }
  }

  lemma SessionNoNul(content: string, n: nat)
    requires NoNul(content) && SessionSentences(content, n).Some?
    ensures NoNul(SessionSentences(content, n).value[n])
  {
    ParseNoNul(content);
  }

  method EditDocument(content: string, n: nat, lines: seq<string>) returns (newContent: Option<string>)
    requires NoNul(content) && FitsSession(content, n, lines)
    ensures newContent == ClientEdit(content, n, lines)
  {
    var sentences := new string[MAX_SENTENCES](_ => "");
    var sentenceCount := ParseSentences(content, sentences, MAX_SENTENCES);
    if n > sentenceCount || (n == sentenceCount && n > 0) {
      return None;
    }
    if n == sentenceCount {
      sentences[n] := "";
      sentenceCount := sentenceCount + 1;
      assert sentences[..sentenceCount] == [""];
    }
    ghost var ss := sentences[..sentenceCount];
    assert SessionSentences(content, n) == Some(ss);
    SessionNoNul(content, n);
    assert sentences[n] == ss[n];
    var words := new string[MAX_WORDS_PER_SENTENCE](_ => "");
    var wordCount := ParseWords(sentences[n], words, MAX_WORDS_PER_SENTENCE);
    wordCount := EditLoop(words, wordCount, lines);
    var newSentence := JoinLoop(words, wordCount);
    sentences[n] := newSentence;
    assert sentences[..sentenceCount] == ss[n := newSentence];
    var text := JoinLoop(sentences, sentenceCount);
    return Some(text);
  }
}
