/** What the two splitters keep of the text they are given. */
module Conservation {
  import opened Text

  // ----- subsequences -----

  /** `a` is what remains of `b` after deleting some characters. */
  predicate Subseq(a: string, b: string) {
    || a == ""
    || (b != "" && Subseq(a, b[1..]))
    || (b != "" && a[0] == b[0] && Subseq(a[1..], b[1..]))
  }

  lemma {:induction false} SubseqPrefix(x: string, a: string, b: string)
    requires Subseq(a, b)
    ensures Subseq(a, x + b)
  {
    if x == "" {
      assert x + b == b;
    } else {
      assert (x + b)[1..] == x[1..] + b;
      SubseqPrefix(x[1..], a, b);
    }
  }

  lemma {:induction false} SubseqAppend(a: string, b: string, c: string, d: string)
    requires Subseq(a, b) && Subseq(c, d)
    ensures Subseq(a + c, b + d)
    decreases |b|
  {
    if a == "" {
      assert a + c == c;
      SubseqPrefix(b, c, d);
    } else {
      assert (b + d)[1..] == b[1..] + d;
      if Subseq(a, b[1..]) {
        SubseqAppend(a, b[1..], c, d);
      } else {
        assert (a + c)[1..] == a[1..] + c;
        SubseqAppend(a[1..], b[1..], c, d);
      }
    }
  }

  lemma {:induction false} SubseqSelf(s: string)
    ensures Subseq(s, s)
  {
    if s != "" {
      SubseqSelf(s[1..]);
    }
  }

  lemma {:induction false} SubseqLength(a: string, b: string)
    requires Subseq(a, b)
    ensures |a| <= |b|
  {
    if a != "" {
      if Subseq(a, b[1..]) {
        SubseqLength(a, b[1..]);
      } else {
        SubseqLength(a[1..], b[1..]);
      }
    }
  }

  lemma SubseqMiddle(a: string, t: string, b: string)
    ensures Subseq(t, a + t + b)
  {
    SubseqSelf(t);
    SubseqPrefix(a, t, t);
    SubseqAppend(t, a + t, "", b);
    assert t + "" == t;
  }

  // ----- no text is invented -----

  lemma CleanIsPart(seg: string)
    ensures Subseq(Clean(seg), seg)
  {
    var c := Take(seg, MAX_SENTENCE - 1);
    var a, b := TrimSplits(c);
    var rest := seg[|c|..];
    assert seg == a + Clean(seg) + (b + rest);
    SubseqMiddle(a, Clean(seg), b + rest);
  }

  lemma {:induction false} KeepIsPart(segs: seq<string>)
    ensures Subseq(Concat(Keep(segs)), Concat(segs))
  {
    if segs != [] {
      KeepIsPart(segs[1..]);
      var kept := Concat(Keep(segs[1..]));
      CleanIsPart(segs[0]);
      SubseqAppend(Clean(segs[0]), segs[0], kept, Concat(segs[1..]));
      SubseqPrefix(segs[0], kept, Concat(segs[1..]));
      if Clean(segs[0]) != "" {
        assert Keep(segs)[1..] == Keep(segs[1..]);
      }
    }
  }

  lemma TakeIsPart(ss: seq<string>, n: nat, b: string)
    requires Subseq(Concat(ss), b)
    ensures Subseq(Concat(Take(ss, n)), b)
  {
    if n < |ss| {
      ConcatAppend(ss[..n], ss[n..]);
      assert ss == ss[..n] + ss[n..];
      SubseqDrop(Concat(ss[..n]), Concat(ss[n..]), b);
    }
  }

  lemma {:induction false} SubseqDrop(a: string, c: string, b: string)
    requires Subseq(a + c, b)
    ensures Subseq(a, b)
    decreases |b|
  {
    if a != "" {
      if Subseq(a + c, b[1..]) {
        SubseqDrop(a, c, b[1..]);
      } else {
        assert (a + c)[1..] == a[1..] + c;
        SubseqDrop(a[1..], c, b[1..]);
      }
    }
  }

  /** Parsing never invents text, whatever the limits cut away, and rebuilding from the parsed
      sentences adds at most the separating spaces. */
  lemma ParseIsPart(content: string, max: nat)
    ensures Subseq(Concat(Sentences(content, max)), content)
    ensures var ss := Sentences(content, max);
            |Join(ss)| <= |content| + (if ss == [] then 0 else |ss| - 1)
  {
    SegmentsConcat(content);
    KeepIsPart(Segments(content));
    TakeIsPart(Keep(Segments(content)), max, content);
    SubseqLength(Concat(Sentences(content, max)), content);
    JoinLength(Sentences(content, max));
  }

  // ----- when no text is lost -----

  /** The text without its white space. */
  function Strip(s: string): string {
    if s == "" then "" else if IsSpace(s[0]) then Strip(s[1..]) else [s[0]] + Strip(s[1..])
  }

  lemma {:induction false} StripAppend(a: string, b: string)
    ensures Strip(a + b) == Strip(a) + Strip(b)
  {
    if a == "" {
      assert a + b == b;
    } else {
      assert (a + b)[1..] == a[1..] + b;
      StripAppend(a[1..], b);
    }
  }

  lemma {:induction false} StripBlank(s: string)
    ensures Strip(s) == "" <==> Blank(s)
  {
    if s != "" {
      StripBlank(s[1..]);
      if Blank(s[1..]) && IsSpace(s[0]) {
        assert forall i :: 1 <= i < |s| ==> s[i] == s[1..][i - 1];
      }
      if Blank(s) {
        assert forall i :: 0 <= i < |s[1..]| ==> s[1..][i] == s[i + 1];
      }
    }
  }

  lemma StripTrim(s: string)
    ensures Strip(Trim(s)) == Strip(s)
  {
    var a, b := TrimSplits(s);
    StripAppend(a + Trim(s), b);
    StripAppend(a, Trim(s));
    StripBlank(a);
    StripBlank(b);
  }

  /** What the sentence buffer has no room for. */
  function Overflow(seg: string): string {
    seg[|Take(seg, MAX_SENTENCE - 1)|..]
  }

  lemma StripClean(seg: string)
    ensures Strip(seg) == Strip(Clean(seg)) + Strip(Overflow(seg))
  {
    var c := Take(seg, MAX_SENTENCE - 1);
    assert seg == c + Overflow(seg);
    StripAppend(c, Overflow(seg));
    StripTrim(c);
  }

  lemma KeepFirst(segs: seq<string>)
    requires segs != []
    ensures Concat(Keep(segs)) == Clean(segs[0]) + Concat(Keep(segs[1..]))
  {
    var first, kept := Clean(segs[0]), Keep(segs[1..]);
    if first == "" {
      assert Keep(segs) == kept;
    } else {
      assert Keep(segs) == [first] + kept;
      assert Concat([first] + kept) == first + Concat(([first] + kept)[1..]);
      assert ([first] + kept)[1..] == kept;
    }
  }

  lemma StripKeepFirst(segs: seq<string>)
    requires segs != []
    ensures Strip(Concat(segs)) == Strip(Clean(segs[0])) + Strip(Overflow(segs[0])) + Strip(Concat(segs[1..]))
    ensures Strip(Concat(Keep(segs))) == Strip(Clean(segs[0])) + Strip(Concat(Keep(segs[1..])))
  {
    KeepFirst(segs);
    StripClean(segs[0]);
    StripAppend(segs[0], Concat(segs[1..]));
    StripAppend(Clean(segs[0]), Concat(Keep(segs[1..])));
  }

  lemma {:induction false} StripKept(segs: seq<string>)
    requires forall i :: 0 <= i < |segs| ==> Blank(Overflow(segs[i]))
    ensures Strip(Concat(Keep(segs))) == Strip(Concat(segs))
  {
    if segs != [] {
      StripKept(segs[1..]);
      StripKeepFirst(segs);
      StripBlank(Overflow(segs[0]));
    }
  }

  lemma {:induction false} StripAtMost(segs: seq<string>)
    ensures |Strip(Concat(Keep(segs)))| <= |Strip(Concat(segs))|
  {
    if segs != [] {
      StripAtMost(segs[1..]);
      StripKeepFirst(segs);
    }
  }

  lemma {:induction false} StripLost(segs: seq<string>, k: nat)
    requires k < |segs| && !Blank(Overflow(segs[k]))
    ensures |Strip(Concat(Keep(segs)))| < |Strip(Concat(segs))|
  {
    StripKeepFirst(segs);
    if k == 0 {
      StripAtMost(segs[1..]);
      StripBlank(Overflow(segs[0]));
    } else {
      StripLost(segs[1..], k - 1);
    }
  }

  /** No sentence overflows its buffer with anything but blanks, and the list is not full. */
  predicate Fits(content: string, max: nat) {
    && |Keep(Segments(content))| <= max
    && forall i :: 0 <= i < |Segments(content)| ==> Blank(Overflow(Segments(content)[i]))
  }

  lemma FullListLoses(kept: seq<string>, max: nat)
    requires AllSentences(kept) && max < |kept|
    ensures |Strip(Concat(Take(kept, max)))| < |Strip(Concat(kept))|
  {
    var lost := kept[max..];
    assert kept == kept[..max] + lost;
    ConcatAppend(kept[..max], lost);
    StripAppend(Concat(kept[..max]), Concat(lost));
    StripAppend(lost[0], Concat(lost[1..]));
    StripBlank(lost[0]);
  }

  /** All visible characters survive, in order, exactly when the text fits the limits. */
  lemma NothingLost(content: string, max: nat)
    ensures Strip(Concat(Sentences(content, max))) == Strip(content) <==> Fits(content, max)
  {
    var segs := Segments(content);
    SegmentsConcat(content);
    SegmentsShape(content);
    KeepIsSentences(segs);
    StripAtMost(segs);
    if |Keep(segs)| > max {
      FullListLoses(Keep(segs), max);
    } else if k :| 0 <= k < |segs| && !Blank(Overflow(segs[k])) {
      StripLost(segs, k);
    } else {
      StripKept(segs);
    }
  }

  lemma {:induction false} KeptDelims(segs: seq<string>)
    requires forall i :: 0 <= i < |segs| ==> |segs[i]| <= MAX_SENTENCE - 1
    requires forall i :: 0 <= i < |segs| - 1 ==> EndsInDelim(segs[i])
    ensures forall i :: 0 <= i < |Keep(segs)| - 1 ==> EndsInDelim(Keep(segs)[i])
  {
    if segs != [] {
      KeptDelims(segs[1..]);
      if |segs| == 1 {
        assert Keep(segs[1..]) == [];
      } else {
        TrimKeepsDelim(segs[0]);
        assert Keep(segs) == [Clean(segs[0])] + Keep(segs[1..]);
      }
    }
  }

  lemma LastOf(x: string, b: string)
    requires b != ""
    ensures (x + b)[|x + b| - 1] == b[|b| - 1]
  {
  }

  lemma TrimKeepsDelim(s: string)
    requires EndsInDelim(s)
    ensures EndsInDelim(Trim(s))
  {
    var a, b := TrimSplits(s);
    assert "" + a == a && a + "" + "" == a && a + Trim(s) + "" == a + Trim(s);
    if b != "" {
      LastOf(a + Trim(s), b);
    } else if Trim(s) == "" {
      LastOf("", a);
    } else {
      LastOf(a, Trim(s));
    }
  }

  /** Without truncation only the last sentence can lack its delimiter. */
  lemma OnlyLastIsOpen(content: string, max: nat)
    requires forall i :: 0 <= i < |Segments(content)| ==> |Segments(content)[i]| <= MAX_SENTENCE - 1
    ensures var ss := Sentences(content, max);
            forall i :: 0 <= i < |ss| - 1 ==> EndsInDelim(ss[i])
  {
    SegmentsShape(content);
    KeptDelims(Segments(content));
  }

  // ----- words -----

  lemma {:induction false} WordSpanOf(w: string, rest: string)
    requires IsWord(w)
    requires rest != "" ==> IsSpace(rest[0])
    ensures WordSpan(w + rest) == |w|
  {
    assert (w + rest)[1..] == w[1..] + rest;
    if |w| > 1 {
      WordSpanOf(w[1..], rest);
    } else {
      assert w[1..] + rest == rest;
    }
  }

  lemma TokensFirst(b: string, w: string, rest: string)
    requires Blank(b) && IsWord(w)
    requires rest != "" ==> IsSpace(rest[0])
    ensures Tokens(b + w + rest) == [w] + Tokens(rest)
  {
    assert b + w + rest == b + (w + rest);
    TrimLeftUnique(b, w + rest);
    WordSpanOf(w, rest);
    assert (w + rest)[..|w|] == w && (w + rest)[|w|..] == rest;
  }

  predicate AllWords(ws: seq<string>) {
    forall i :: 0 <= i < |ws| ==> IsWord(ws[i])
  }

  lemma SpacedStart(ws: seq<string>)
    ensures Concat(Spaced(ws)) != "" ==> IsSpace(Concat(Spaced(ws))[0])
  {
    if ws != [] {
      assert Spaced(ws)[0] == " " + ws[0];
      assert Concat(Spaced(ws)) == Spaced(ws)[0] + Concat(Spaced(ws)[1..]);
    }
  }

  lemma {:induction false} TokensOfSpaced(ws: seq<string>)
    requires AllWords(ws)
    ensures Tokens(Concat(Spaced(ws))) == ws
  {
    if ws != [] {
      TokensOfSpaced(ws[1..]);
      var rest := Concat(Spaced(ws[1..]));
      assert Concat(Spaced(ws)) == " " + ws[0] + rest;
      SpacedStart(ws[1..]);
      TokensFirst(" ", ws[0], rest);
    }
  }

  lemma TokensPlain(w: string, rest: string)
    requires IsWord(w)
    requires rest != "" ==> IsSpace(rest[0])
    ensures Tokens(w + rest) == [w] + Tokens(rest)
  {
    TokensFirst("", w, rest);
    assert "" + w + rest == w + rest;
  }

  /** The word splitter takes a joined word list apart again. */
  lemma TokensOfJoin(ws: seq<string>)
    requires AllWords(ws)
    ensures Tokens(Join(ws)) == ws
  {
    if ws != [] {
      JoinIsSpaced(ws);
      TokensOfSpaced(ws[1..]);
      SpacedStart(ws[1..]);
      TokensPlain(ws[0], Concat(Spaced(ws[1..])));
    }
  }

  /** `parse_words` inverts the join exactly on the lists that respect its limits. */
  lemma WordRoundTrip(ws: seq<string>, max: nat)
    requires AllWords(ws)
    ensures WordsUpTo(Join(ws), max) == ws
            <==> |ws| <= max && forall i :: 0 <= i < |ws| ==> |ws[i]| <= MAX_WORD - 1
  {
    TokensOfJoin(ws);
    var cw := ClipWords(ws);
    if |ws| <= max && forall i :: 0 <= i < |ws| ==> |ws[i]| <= MAX_WORD - 1 {
      assert cw == ws;
    } else if |ws| <= max {
      var k :| 0 <= k < |ws| && |ws[k]| > MAX_WORD - 1;
      assert |cw[k]| != |ws[k]|;
    }
  }

  lemma WordsNormalForm(sentence: string, max: nat)
    ensures var ws := WordsUpTo(sentence, max);
            AllWords(ws) && |ws| <= max && forall i :: 0 <= i < |ws| ==> |ws[i]| <= MAX_WORD - 1
  {
    TokensAreWords(sentence);
  }

  /** Parse, join and parse again is the same as parse, on every input, over-limit ones included. */
  lemma WordsIdempotent(sentence: string, max: nat)
    ensures WordsUpTo(Join(WordsUpTo(sentence, max)), max) == WordsUpTo(sentence, max)
  {
    WordsNormalForm(sentence, max);
    WordRoundTrip(WordsUpTo(sentence, max), max);
  }

  /** The visible characters of a sentence are those of its tokens, in order. */
  lemma {:induction false} TokensStrip(s: string)
    ensures Concat(Tokens(s)) == Strip(s)
    decreases |s|
  {
    var t := TrimLeft(s);
    var a := TrimLeftSplits(s);
    StripAppend(a, t);
    StripBlank(a);
    if t != "" {
      var n := WordSpan(t);
      TokensStrip(t[n..]);
      assert t == t[..n] + t[n..];
      StripAppend(t[..n], t[n..]);
      StripWord(t[..n]);
      assert Tokens(s)[1..] == Tokens(t[n..]);
    }
  }

  lemma {:induction false} StripWord(w: string)
    requires forall i :: 0 <= i < |w| ==> !IsSpace(w[i])
    ensures Strip(w) == w
  {
    if w != "" {
      StripWord(w[1..]);
    }
  }

  lemma {:induction false} TokensJoinLength(s: string)
    ensures |Concat(Tokens(s))| + |Tokens(s)| <= |s| + 1
    ensures s != "" && IsSpace(s[0]) ==> |Concat(Tokens(s))| + |Tokens(s)| <= |s|
    decreases |s|
  {
    var t := TrimLeft(s);
    if t != "" {
      var n := WordSpan(t);
      TokensJoinLength(t[n..]);
      assert Tokens(s)[1..] == Tokens(t[n..]);
      if n == |t| {
        assert Tokens(t[n..]) == [];
      }
    }
  }

  lemma {:induction false} ClipConcat(ws: seq<string>)
    ensures |Concat(ClipWords(ws))| <= |Concat(ws)|
  {
    if ws != [] {
      ClipConcat(ws[1..]);
      assert ClipWords(ws)[1..] == ClipWords(ws[1..]);
    }
  }

  /** Joining the parsed words never gives a longer sentence than the one that was parsed. */
  lemma WordsNeverGrow(sentence: string, max: nat)
    ensures |Join(WordsUpTo(sentence, max))| <= |sentence|
  {
    var ts := Tokens(sentence);
    var cs := ClipWords(ts);
    var ws := Take(cs, max);
    TokensJoinLength(sentence);
    ClipConcat(ts);
    JoinLength(ws);
    if max < |cs| {
      ConcatAppend(cs[..max], cs[max..]);
      assert cs == cs[..max] + cs[max..];
    }
    if ts == [] {
      assert ws == [];
    }
  }
}
