/** Parsing and editing terminator-free text yields terminator-free text, so that everything the
    programs store is again a C string.
 */
module PlainText {
  import opened Scan
  import opened Text
  import opened TextLoops
  import opened WordEdit

  predicate AllNoNul(ss: seq<string>) {
    forall i :: 0 <= i < |ss| ==> NoNul(ss[i])
  }

  lemma CleanNoNul(seg: string)
    requires NoNul(seg)
    ensures NoNul(Clean(seg))
  {
    var c := Take(seg, MAX_SENTENCE - 1);
    var a, b := TrimSplits(c);
    forall i | 0 <= i < |Clean(seg)| ensures Clean(seg)[i] != NUL {
      assert Clean(seg)[i] == c[|a| + i] == seg[|a| + i];
    }
  }

  lemma {:induction false} KeepNoNul(segs: seq<string>)
    requires AllNoNul(segs)
    ensures AllNoNul(Keep(segs))
  {
    if segs != [] {
      CleanNoNul(segs[0]);
      KeepNoNul(segs[1..]);
    }
  }

  lemma {:induction false} SegmentsNoNul(s: string)
    requires NoNul(s)
    ensures AllNoNul(Segments(s))
    decreases |s|
  {
    if s != "" {
      SegmentsNoNul(s[Span(s)..]);
    }
  }

  lemma TrimLeftNoNul(s: string)
    requires NoNul(s)
    ensures NoNul(TrimLeft(s))
  {
    var a := TrimLeftSplits(s);
    assert forall i :: 0 <= i < |TrimLeft(s)| ==> TrimLeft(s)[i] == s[|a| + i];
  }

  lemma {:induction false} TokensNoNul(s: string)
    requires NoNul(s)
    ensures AllNoNul(Tokens(s))
    decreases |s|
  {
    var t := TrimLeft(s);
    TrimLeftNoNul(s);
    if t != "" {
      var n := WordSpan(t);
      TokensNoNul(t[n..]);
      assert NoNul(t[..n]);
      assert Tokens(s) == [t[..n]] + Tokens(t[n..]);
    }
  }

  lemma {:induction false} JoinNoNul(ss: seq<string>)
    requires AllNoNul(ss)
    ensures NoNul(Join(ss))
  {
    if |ss| > 1 {
      JoinNoNul(ss[1..]);
    }
  }

  lemma ParseNoNul(content: string)
    requires NoNul(content)
    ensures AllNoNul(Parse(content))
  {
    SegmentsNoNul(content);
    KeepNoNul(Segments(content));
  }

  lemma WordsNoNul(s: string)
    requires NoNul(s)
    ensures AllNoNul(Words(s))
  {
    TokensNoNul(s);
  }

  lemma EditNoNul(content: string, e: Edit)
    requires NoNul(content) && NoNul(e.text) && InRange(content, e)
    ensures NoNul(Join(NewWords(content, e)))
    ensures NoNul(Join(NewSentences(content, e)))
  {
    ParseNoNul(content);
    WordsNoNul(Parse(content)[e.sentence]);
    JoinNoNul(NewWords(content, e));
    JoinNoNul(NewSentences(content, e));
  }

  lemma ScanIntSuffix(s: string)
    requires NoNul(s) && ScanInt(s).Some?
    ensures NoNul(ScanInt(s).value.1)
  {
    SkipNoNul(s);
  }

  lemma {:induction false} SkipNoNul(s: string)
    requires NoNul(s)
    ensures NoNul(SkipCSpace(s))
  {
    if s != "" && IsCSpace(s[0]) {
      SkipNoNul(s[1..]);
    }
  }

  lemma CommandTextNoNul(data: string)
    requires NoNul(data) && ParseWrite(data).WordCommand?
    ensures NoNul(ParseWrite(data).text)
  {
    ScanIntSuffix(data);
    var rest := ScanField(data).value.1;
    ScanIntSuffix(rest);
  }
}
