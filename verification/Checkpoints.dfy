/** Checkpoints of the storage server: what a tag names, and what a revert gives back. */
module Checkpoints {
  import opened Options
  import opened Scan
  import opened Location
  import opened StorageSpec
  import opened StorageRuns

  // ----- file names of checkpoints -----

  /** Splitting at the last underscore. */
  lemma {:induction false} LastUnderscore(a1: string, b1: string, a2: string, b2: string)
    requires Avoids(b1, '_') && Avoids(b2, '_')
    requires a1 + "_" + b1 == a2 + "_" + b2
    ensures a1 == a2 && b1 == b2
  {
    var s, t := a1 + "_" + b1, a2 + "_" + b2;
    assert s[|a1|] == '_' && t[|a2|] == '_';
    assert forall i :: |a1| < i < |s| ==> s[i] == b1[i - |a1| - 1];
    assert forall i :: |a2| < i < |t| ==> t[i] == b2[i - |a2| - 1];
    assert |a1| == |a2|;
    assert a1 == s[..|a1|] && a2 == t[..|a2|];
    assert b1 == s[|a1| + 1..] && b2 == t[|a2| + 1..];
  }

  lemma IntAvoids(n: int, c: char)
    requires !IsDigit(c) && c != '-'
    ensures Avoids(PrintInt(n), c)
  {
    var ds := PrintInt(n);
    forall i | 0 <= i < |ds| ensures ds[i] != c {
      assert IsDigit(ds[i]) || ds[i] == '-';
    }
  }

  lemma PrintIntInjective(n: int, m: int)
    requires PrintInt(n) == PrintInt(m)
    ensures n == m
  {
    IntRoundTrip(n, "");
    IntRoundTrip(m, "");
  }

  /** The name is not cut off. */
  predicate ShortName(file: string, tag: string, time: int) {
    |RawName(file, tag, time)| < MAX_FILENAME
  }

  /** The time is always readable; file and tag are only known put together. */
  lemma SameRawName(f1: string, t1: string, n1: int, f2: string, t2: string, n2: int)
    ensures RawName(f1, t1, n1) == RawName(f2, t2, n2) <==> n1 == n2 && f1 + "_" + t1 == f2 + "_" + t2
  {
    IntAvoids(n1, '_');
    IntAvoids(n2, '_');
    if RawName(f1, t1, n1) == RawName(f2, t2, n2) {
      LastUnderscore(f1 + "_" + t1, PrintInt(n1), f2 + "_" + t2, PrintInt(n2));
      PrintIntInjective(n1, n2);
    }
  }

  /** Untruncated names with underscore-free tags identify file, tag and time. */
  lemma NameInjective(f1: string, t1: string, n1: int, f2: string, t2: string, n2: int)
    requires Avoids(t1, '_') && ShortName(f1, t1, n1) && Avoids(t2, '_') && ShortName(f2, t2, n2)
    requires CheckpointName(f1, t1, n1) == CheckpointName(f2, t2, n2)
    ensures f1 == f2 && t1 == t2 && n1 == n2
  {
    SameRawName(f1, t1, n1, f2, t2, n2);
    LastUnderscore(f1, t1, f2, t2);
  }

  predicate Ends(s: string, tail: string) {
    |tail| <= |s| && s[|s| - |tail|..] == tail
  }

  /** One tag is the other one behind an underscore and whatever stands before it. */
  predicate Overlap(t1: string, t2: string) {
    Ends(t1, "_" + t2) || Ends(t2, "_" + t1)
  }

  lemma LongerFile(f1: string, t1: string, f2: string, t2: string)
    requires f1 + "_" + t1 == f2 + "_" + t2 && |f1| < |f2|
    ensures Ends(t1, "_" + t2)
  {
    var s := f1 + "_" + t1;
    assert s[|f2|..] == "_" + t2;
    assert t1[|f2| - |f1| - 1..] == s[|f2|..];
  }

  lemma SameFile(f: string, t1: string, t2: string)
    requires f + "_" + t1 == f + "_" + t2
    ensures t1 == t2
  {
    assert (f + "_" + t1)[|f| + 1..] == t1;
    assert (f + "_" + t2)[|f| + 1..] == t2;
  }

  lemma DifferentFiles(f1: string, t1: string, f2: string, t2: string)
    requires f1 + "_" + t1 == f2 + "_" + t2 && f1 != f2
    ensures Overlap(t1, t2)
  {
    assert f1 == (f1 + "_" + t1)[..|f1|];
    assert f2 == (f2 + "_" + t2)[..|f2|];
    if |f1| < |f2| {
      LongerFile(f1, t1, f2, t2);
    } else if |f2| < |f1| {
      LongerFile(f2, t2, f1, t1);
    }
  }

  /** Tags that do not overlap keep checkpoints of different files or tags apart. */
  lemma ApartNames(f1: string, t1: string, n1: int, f2: string, t2: string, n2: int)
    requires ShortName(f1, t1, n1) && ShortName(f2, t2, n2)
    requires !Overlap(t1, t2) && (f1, t1) != (f2, t2)
    ensures CheckpointName(f1, t1, n1) != CheckpointName(f2, t2, n2)
  {
    SameRawName(f1, t1, n1, f2, t2, n2);
    if f1 + "_" + t1 == f2 + "_" + t2 {
      if f1 == f2 {
        SameFile(f1, t1, t2);
      } else {
        DifferentFiles(f1, t1, f2, t2);
      }
    }
  }

  /** With underscores in tags, checkpoints of two different files at one moment share one file. */
  lemma UnderscoresCollide(time: int)
    ensures CheckpointName("a", "b_c", time) == CheckpointName("a_b", "c", time)
  {
    assert "a" + "_" + "b_c" == "a_b" + "_" + "c";
  }

  lemma ContainsSlash(s: string)
    ensures Contains(s, "/") <==> !Avoids(s, '/')
  {
    if i :| 0 <= i < |s| && s[i] == '/' {
      assert s[i..i + 1] == "/";
      assert At(s, "/", i);
    }
    if Contains(s, "/") {
      var i: nat :| i <= |s| && At(s, "/", i);
      assert s[i] == s[i..i + 1][0];
    }
  }

  /** The name of a checkpoint has a slash exactly when its tag has one. */
  lemma SlashOnlyInTag(file: string, tag: string, time: int)
    requires PlainName(file) && ShortName(file, tag, time)
    ensures Contains(CheckpointName(file, tag, time), "/") <==> Contains(tag, "/")
  {
    var name := RawName(file, tag, time);
    ContainsSlash(file);
    ContainsSlash(tag);
    ContainsSlash(name);
    IntAvoids(time, '/');
    AvoidsBoth(file + "_" + tag + "_", PrintInt(time), '/');
    AvoidsBoth(file + "_" + tag, "_", '/');
    AvoidsBoth(file + "_", tag, '/');
    AvoidsBoth(file, "_", '/');
  }

  lemma AvoidsBoth(a: string, b: string, c: char)
    ensures Avoids(a + b, c) <==> Avoids(a, c) && Avoids(b, c)
  {
    if Avoids(a + b, c) {
      forall i | 0 <= i < |a| ensures a[i] != c {
        assert a[i] == (a + b)[i];
      }
      forall i | 0 <= i < |b| ensures b[i] != c {
        assert b[i] == (a + b)[|a| + i];
      }
    }
  }

  lemma NoSlash(file: string, tag: string, time: int)
    requires Avoids(file, '/') && Avoids(tag, '/')
    ensures !Contains(CheckpointName(file, tag, time), "/")
  {
    ContainsSlash(CheckpointName(file, tag, time));
    IntAvoids(time, '/');
  }

  // ----- when checkpoints of different documents meet -----

  /** Two documents that the server can hold get one checkpoint file, and it can be written. */
  predicate Clash(f1: string, t1: string, f2: string, t2: string, time: int) {
    && f1 != f2 && PlainName(f1) && PlainName(f2)
    && ShortName(f1, t1, time) && ShortName(f2, t2, time)
    && CheckpointName(f1, t1, time) == CheckpointName(f2, t2, time)
    && !Contains(CheckpointName(f1, t1, time), "/")
  }

  /** The numbers that the time and the tag of a request stay below. */
  predicate InBounds(t1: string, t2: string, time: int) {
    |t1| < 64 && |t2| < 64 && |PrintInt(time)| < 60
  }

  /** The file names for which the tags "x_t" and "t" clash. */
  lemma LongerName(x: string)
    requires Avoids(x, '/')
    ensures PlainName("a") && PlainName("a_" + x)
    ensures ValidName("a") && (ValidName("a_" + x) <==> !Contains(x, ".."))
  {
    var f := "a_" + x;
    ContainsSlash("a");
    ContainsSlash(f);
    assert f[0] == 'a' && f[1] == '_' && !Contains("a", "..");
    if i: nat :| i <= |x| && At(x, "..", i) {
      assert f[i + 2..i + 4] == x[i..i + 2];
      assert At(f, "..", i + 2);
    }
    if i: nat :| i <= |f| && At(f, "..", i) {
      assert f[i] == f[i..i + 2][0] && i >= 2;
      assert x[i - 2..i] == f[i..i + 2];
      assert At(x, "..", i - 2);
    }
  }

  lemma OverlapClashes(x: string, t: string, time: int)
    requires Avoids(x, '/') && Avoids(t, '/') && InBounds(x + ("_" + t), t, time)
    ensures Clash("a", x + ("_" + t), "a_" + x, t, time) && Clash("a_" + x, t, "a", x + ("_" + t), time)
  {
    LongerName(x);
    assert "a" + "_" + (x + ("_" + t)) == ("a_" + x) + "_" + t;
    NoSlash("a_" + x, t, time);
  }

  /** Splits a tag that ends in an underscore and another tag. */
  lemma TagSplits(t1: string, t2: string) returns (x: string)
    requires Ends(t1, "_" + t2)
    ensures t1 == x + ("_" + t2)
  {
    x := t1[..|t1| - |t2| - 1];
  }

  lemma ClashOverlaps(f1: string, t1: string, f2: string, t2: string, time: int)
    requires Clash(f1, t1, f2, t2, time)
    ensures Overlap(t1, t2) && Avoids(t1, '/') && Avoids(t2, '/')
  {
    SameRawName(f1, t1, time, f2, t2, time);
    DifferentFiles(f1, t1, f2, t2);
    SlashOnlyInTag(f1, t1, time);
    SlashOnlyInTag(f2, t2, time);
    ContainsSlash(t1);
    ContainsSlash(t2);
  }

  /** Two tags can make checkpoints of two different documents meet in one file exactly when one of them
      ends in an underscore and the other one, and neither has a slash. */
  lemma TagsClashExactly(t1: string, t2: string, time: int)
    requires InBounds(t1, t2, time)
    ensures (exists f1, f2 :: Clash(f1, t1, f2, t2, time))
            <==> Overlap(t1, t2) && !Contains(t1, "/") && !Contains(t2, "/")
  {
    ContainsSlash(t1);
    ContainsSlash(t2);
    if f1, f2 :| Clash(f1, t1, f2, t2, time) {
      ClashOverlaps(f1, t1, f2, t2, time);
    }
    if Avoids(t1, '/') && Avoids(t2, '/') {
      if Ends(t1, "_" + t2) {
        var x := TagSplits(t1, t2);
        OverlapClashes(x, t2, time);
      } else if Ends(t2, "_" + t1) {
        var x := TagSplits(t2, t1);
        OverlapClashes(x, t1, time);
      }
    }
  }

  // ----- documents that CREATE lets through -----

  /** `t1` is "x_t2", and x has no two dots in a row. */
  predicate DotFreeOverlap(t1: string, t2: string) {
    Ends(t1, "_" + t2) && !Contains(t1[..|t1| - |t2| - 1], "..")
  }

  predicate ValidClash(f1: string, t1: string, f2: string, t2: string, time: int) {
    Clash(f1, t1, f2, t2, time) && ValidName(f1) && ValidName(f2)
  }

  lemma LongerValidFile(f1: string, t1: string, f2: string, t2: string)
    requires f1 + "_" + t1 == f2 + "_" + t2 && |f1| < |f2| && ValidName(f2)
    ensures DotFreeOverlap(t1, t2)
  {
    LongerFile(f1, t1, f2, t2);
    var s := f1 + "_" + t1;
    var x := t1[..|t1| - |t2| - 1];
    assert f2 == s[..|f2|] == f1 + "_" + x;
    if Contains(x, "..") {
      DotsCarry(f1 + "_", x);
    }
  }

  lemma DotsCarry(head: string, x: string)
    requires Contains(x, "..")
    ensures Contains(head + x, "..")
  {
    var i: nat :| i <= |x| && At(x, "..", i);
    assert (head + x)[|head| + i..|head| + i + 2] == x[i..i + 2];
    assert At(head + x, "..", |head| + i);
  }

  lemma ValidClashOverlaps(f1: string, t1: string, f2: string, t2: string, time: int)
    requires ValidClash(f1, t1, f2, t2, time)
    ensures DotFreeOverlap(t1, t2) || DotFreeOverlap(t2, t1)
  {
    SameRawName(f1, t1, time, f2, t2, time);
    assert f1 == (f1 + "_" + t1)[..|f1|];
    assert f2 == (f2 + "_" + t2)[..|f2|];
    if |f1| < |f2| {
      LongerValidFile(f1, t1, f2, t2);
    } else if |f2| < |f1| {
      LongerValidFile(f2, t2, f1, t1);
    }
  }

  lemma DotFreeClashes(t1: string, t2: string, time: int) returns (f1: string, f2: string)
    requires DotFreeOverlap(t1, t2) && Avoids(t1, '/') && Avoids(t2, '/') && InBounds(t1, t2, time)
    ensures ValidClash(f1, t1, f2, t2, time) && ValidClash(f2, t2, f1, t1, time)
  {
    var x := t1[..|t1| - |t2| - 1];
    assert t1 == x + ("_" + t2);
    OverlapClashes(x, t2, time);
    LongerName(x);
    f1, f2 := "a", "a_" + x;
  }

  /** The same for documents whose names the validation lets through: what stands before the underscore
      becomes part of a file name, so it must not have two dots in a row. */
  lemma ValidTagsClashExactly(t1: string, t2: string, time: int)
    requires InBounds(t1, t2, time)
    ensures (exists f1, f2 :: ValidClash(f1, t1, f2, t2, time))
            <==> (DotFreeOverlap(t1, t2) || DotFreeOverlap(t2, t1)) && !Contains(t1, "/") && !Contains(t2, "/")
  {
    ContainsSlash(t1);
    ContainsSlash(t2);
    if f1, f2 :| ValidClash(f1, t1, f2, t2, time) {
      ClashOverlaps(f1, t1, f2, t2, time);
      ValidClashOverlaps(f1, t1, f2, t2, time);
    }
    if Avoids(t1, '/') && Avoids(t2, '/') {
      if DotFreeOverlap(t1, t2) {
        var f1, f2 := DotFreeClashes(t1, t2, time);
      } else if DotFreeOverlap(t2, t1) {
        var f2, f1 := DotFreeClashes(t2, t1, time);
      }
    }
  }

  // ----- what a command text means -----

  /** A command, a bar, blanks, a tag, and whatever follows the tag. */
  predicate CommandShape(data: string, cmd: string, tag: string, blanks: string, rest: string) {
    && data == cmd + ("|" + (blanks + (tag + rest)))
    && CBlank(blanks) && IsToken(tag) && (rest != "" ==> IsCSpace(rest[0]))
  }

  lemma CommandWord(cmd: string, rest: string)
    requires cmd != "" && Avoids(cmd, '|') && (rest != "" ==> rest[0] == '|')
    ensures ScanNot(cmd + rest, '|', |cmd + rest|) == Some((cmd, rest))
  {
    SpanNotOf(cmd, '|', rest);
    assert (cmd + rest)[..|cmd|] == cmd && (cmd + rest)[|cmd|..] == rest;
  }

  lemma CommandRead(data: string, cmd: string, tag: string, blanks: string, rest: string)
    requires (cmd == "CREATE" || cmd == "REVERT") && CommandShape(data, cmd, tag, blanks, rest)
    ensures ParseCommand(data) == if cmd == "CREATE" then CreateTag(tag) else RevertTag(tag)
  {
    CommandWord(cmd, "|" + (blanks + (tag + rest)));
    assert ("|" + (blanks + (tag + rest)))[1..] == blanks + (tag + rest);
    ScanTokenOf(blanks, tag, rest);
  }

  /** The client's own texts, whatever blank-separated text follows. */
  lemma CommandRoundTrip(cmd: string, tag: string, rest: string)
    requires (cmd == "CREATE" || cmd == "REVERT") && IsToken(tag) && (rest != "" ==> IsCSpace(rest[0]))
    ensures ParseCommand(cmd + "|" + (tag + rest)) == if cmd == "CREATE" then CreateTag(tag) else RevertTag(tag)
    ensures SpanNot(cmd + "|" + (tag + rest), '|') < 32
  {
    assert cmd + "|" + (tag + rest) == cmd + ("|" + ("" + (tag + rest)));
    SpanNotOf(cmd, '|', "|" + ("" + (tag + rest)));
    CommandRead(cmd + "|" + (tag + rest), cmd, tag, "", rest);
  }

  lemma TokenFound(s: string) returns (blanks: string, rest: string)
    requires ScanToken(s).Some?
    ensures var tag := ScanToken(s).value.0;
            && s == blanks + (tag + rest) && CBlank(blanks) && IsToken(tag) && (rest != "" ==> IsCSpace(rest[0]))
  {
    blanks := SkippedBlanks(s);
    ScannedToken(s);
    var t := SkipCSpace(s);
    rest := t[TokenSpan(t)..];
    TokenEnds(t);
  }

  lemma {:induction false} TokenEnds(t: string)
    ensures TokenSpan(t) < |t| ==> IsCSpace(t[TokenSpan(t)])
  {
    if t != "" && !IsCSpace(t[0]) {
      TokenEnds(t[1..]);
    }
  }

  /** The command word and what stands behind the bar. */
  lemma WordFound(data: string) returns (cmd: string, tail: string)
    requires ParseCommand(data).CreateTag? || ParseCommand(data).RevertTag?
    ensures data == cmd + ("|" + tail) && cmd == (if ParseCommand(data).CreateTag? then "CREATE" else "REVERT")
    ensures ScanToken(tail).Some? && ParseCommand(data).tag == ScanToken(tail).value.0
  {
    var n := SpanNot(data, '|');
    cmd, tail := data[..n], data[n + 1..];
    assert data[n..][1..] == tail;
  }

  lemma CommandFound(data: string) returns (blanks: string, rest: string)
    requires ParseCommand(data).CreateTag? || ParseCommand(data).RevertTag?
    ensures CommandShape(data, if ParseCommand(data).CreateTag? then "CREATE" else "REVERT", ParseCommand(data).tag,
                         blanks, rest)
  {
    var cmd, tail := WordFound(data);
    blanks, rest := TokenFound(tail);
  }

  /** Exactly the texts of that shape are taken for a checkpoint and for a revert. */
  lemma CommandExactly(data: string, tag: string)
    ensures ParseCommand(data) == CreateTag(tag)
            <==> exists blanks, rest :: CommandShape(data, "CREATE", tag, blanks, rest)
    ensures ParseCommand(data) == RevertTag(tag)
            <==> exists blanks, rest :: CommandShape(data, "REVERT", tag, blanks, rest)
  {
    if blanks, rest :| CommandShape(data, "CREATE", tag, blanks, rest) {
      CommandRead(data, "CREATE", tag, blanks, rest);
    }
    if blanks, rest :| CommandShape(data, "REVERT", tag, blanks, rest) {
      CommandRead(data, "REVERT", tag, blanks, rest);
    }
    if ParseCommand(data).CreateTag? || ParseCommand(data).RevertTag? {
      var blanks, rest := CommandFound(data);
    }
  }

  /** LIST, and every command word but the two, changes nothing. */
  lemma OtherCommands(d: Disk, file: string, cmd: string, rest: string, time: int)
    requires cmd != "" && Avoids(cmd, '|') && (rest != "" ==> rest[0] == '|')
    requires cmd != "CREATE" && cmd != "REVERT"
    requires WellFormed(d, CheckpointOp(file, cmd + rest, time))
    ensures Step(d, CheckpointOp(file, cmd + rest, time)).0 == d
  {
    CommandWord(cmd, rest);
  }

  /** A text without a command word is refused. */
  lemma NoCommandExactly(data: string)
    ensures ParseCommand(data).NoCommand? <==> data == "" || data[0] == '|'
  {
  }

  // ----- a checkpoint over a run -----

  predicate CreatesTag(r: Request, file: string, tag: string) {
    r.CheckpointOp? && r.file == file && ParseCommand(r.data) == CreateTag(tag)
  }

  /** The request writes the checkpoint file `name`. */
  predicate Writes(r: Request, name: string) {
    && r.CheckpointOp? && ParseCommand(r.data).CreateTag?
    && CheckpointName(r.file, ParseCommand(r.data).tag, r.time) == name
  }

  /** The request creates no checkpoint whose tag overlaps with this one. */
  predicate Apart(r: Request, tag: string) {
    r.CheckpointOp? && ParseCommand(r.data).CreateTag? ==>
      var t := ParseCommand(r.data).tag;
      ShortName(r.file, t, r.time) && !Overlap(t, tag)
  }

  /** The tag is not used for the file again and its checkpoint file is not written again. */
  predicate Spares(rs: seq<Request>, file: string, tag: string, time: int) {
    forall i :: 0 <= i < |rs| ==>
      !CreatesTag(rs[i], file, tag) && !Writes(rs[i], CheckpointName(file, tag, time))
  }

  /** It is enough to look at tags. */
  lemma ApartRunSpares(rs: seq<Request>, file: string, tag: string, time: int)
    requires ShortName(file, tag, time)
    requires forall i :: 0 <= i < |rs| ==> Apart(rs[i], tag) && !CreatesTag(rs[i], file, tag)
    ensures Spares(rs, file, tag, time)
  {
    forall i | 0 <= i < |rs| ensures !Writes(rs[i], CheckpointName(file, tag, time)) {
      if rs[i].CheckpointOp? && ParseCommand(rs[i].data).CreateTag? {
        ApartNames(rs[i].file, ParseCommand(rs[i].data).tag, rs[i].time, file, tag, time);
      }
    }
  }

  /** The tag leads to a checkpoint file with this content. */
  predicate Kept(d: Disk, file: string, tag: string, time: int, content: string) {
    var name := CheckpointName(file, tag, time);
    FindRow(d.rows, file, tag) == Some(name) && name in d.saved && d.saved[name] == content
  }

  lemma {:induction false} FindRowAppend(rows: seq<Row>, row: Row, file: string, tag: string)
    ensures FindRow(rows + [row], file, tag)
            == if FindRow(rows, file, tag).Some? then FindRow(rows, file, tag)
               else if row.file == file && row.tag == tag then Some(row.checkpointFile) else None
  {
    if rows == [] {
      assert rows + [row] == [row];
    } else {
      assert (rows + [row])[1..] == rows[1..] + [row];
      FindRowAppend(rows[1..], row, file, tag);
    }
  }

  lemma OtherCheckpoint(d: Disk, f: string, t: string, n: int, file: string, tag: string, time: int)
    requires (f, t) != (file, tag) && CheckpointName(f, t, n) != CheckpointName(file, tag, time)
    ensures var d' := CheckpointStep(d, f, t, n).0;
            && FindRow(d'.rows, file, tag) == FindRow(d.rows, file, tag)
            && (forall content :: Kept(d, file, tag, time, content) ==> Kept(d', file, tag, time, content))
  {
    FindRowAppend(d.rows, Row(f, t, CheckpointName(f, t, n)), file, tag);
  }

  lemma OtherStepKeepsCheckpoints(d: Disk, r: Request)
    requires WellFormed(d, r) && !(r.CheckpointOp? && ParseCommand(r.data).CreateTag?)
    ensures Step(d, r).0.rows == d.rows && Step(d, r).0.saved == d.saved
  {
  }

  lemma StepKeepsCheckpoint(d: Disk, r: Request, file: string, tag: string, time: int)
    requires WellFormed(d, r)
    requires !CreatesTag(r, file, tag) && !Writes(r, CheckpointName(file, tag, time))
    ensures FindRow(Step(d, r).0.rows, file, tag) == FindRow(d.rows, file, tag)
    ensures forall content :: Kept(d, file, tag, time, content) ==> Kept(Step(d, r).0, file, tag, time, content)
  {
    if r.CheckpointOp? && ParseCommand(r.data).CreateTag? {
      OtherCheckpoint(d, r.file, ParseCommand(r.data).tag, r.time, file, tag, time);
    } else {
      OtherStepKeepsCheckpoints(d, r);
    }
  }

  /** A checkpoint survives every run that spares it, and a tag that leads nowhere still does so after
      the run. */
  lemma {:induction false} RunKeepsCheckpoint(d: Disk, rs: seq<Request>, file: string, tag: string, time: int)
    requires WellFormedRun(d, rs) && Spares(rs, file, tag, time)
    ensures FindRow(Run(d, rs).rows, file, tag) == FindRow(d.rows, file, tag)
    ensures forall content :: Kept(d, file, tag, time, content) ==> Kept(Run(d, rs), file, tag, time, content)
    decreases |rs|
  {
    if rs != [] {
      StepKeepsCheckpoint(d, rs[0], file, tag, time);
      RunKeepsCheckpoint(Step(d, rs[0]).0, rs[1..], file, tag, time);
    }
  }

  lemma RevertGivesBack(d: Disk, file: string, tag: string, time: int, content: string, user: string)
    requires Inv(d) && Kept(d, file, tag, time, content) && Validates(user, file)
    ensures RevertStep(d, file, tag).1.Ok?
    ensures var d' := RevertStep(d, file, tag).0;
            && file in d'.files && d'.files[file] == content
            && (file in d.files ==> UndoStep(d', user, file).1.Ok?
                                    && UndoStep(d', user, file).0.files[file] == d.files[file])
  {
  }

  /** What a REVERT in state `now` has to do with the checkpoint that led from `d` to `d1`. */
  predicate FaithfulSteps(d: Disk, d1: Disk, created: Reply, now: Disk, file: string, tag: string, time: int,
                          user: string)
    requires file in d.files
  {
    var (reverted, reply) := RevertStep(now, file, tag);
    && (reply.Ok? <==> created.Ok?)
    && (reply.Ok? <==> !Contains(CheckpointName(file, tag, time), "/"))
    && (reply.Ok? ==> file in reverted.files && reverted.files[file] == d.files[file])
    && (reply.Ok? && file in now.files ==>
          var (undone, answer) := UndoStep(reverted, user, file);
          answer.Ok? && file in undone.files && undone.files[file] == now.files[file])
    && (!reply.Ok? ==> d1 == d && created == Failed(ServerError)
                       && reverted == now && reply == Failed(CheckpointNotFound))
  }

  lemma StepsKept(d: Disk, file: string, tag: string, time: int, rs: seq<Request>, user: string)
    requires Inv(d) && file in d.files && Validates(user, file)
    requires FindRow(d.rows, file, tag) == None && !Contains(CheckpointName(file, tag, time), "/")
    requires WellFormedRun(CheckpointStep(d, file, tag, time).0, rs) && Spares(rs, file, tag, time)
    ensures CheckpointStep(d, file, tag, time).1.Ok?
    ensures var now := Run(CheckpointStep(d, file, tag, time).0, rs);
            Inv(now) && Kept(now, file, tag, time, d.files[file])
  {
    var d1 := CheckpointStep(d, file, tag, time).0;
    RunKeepsCheckpoint(d1, rs, file, tag, time);
    CheckpointKeepsInv(d, file, tag, time);
    FindRowAppend(d.rows, Row(file, tag, CheckpointName(file, tag, time)), file, tag);
    assert Kept(d1, file, tag, time, d.files[file]);
    RunKeepsInv(d1, rs);
  }

  /** The steps behind the two requests. */
  lemma StepsFidelity(d: Disk, file: string, tag: string, time: int, rs: seq<Request>, user: string)
    requires Inv(d) && file in d.files && Validates(user, file)
    requires FindRow(d.rows, file, tag) == None
    requires WellFormedRun(CheckpointStep(d, file, tag, time).0, rs) && Spares(rs, file, tag, time)
    ensures var (d1, created) := CheckpointStep(d, file, tag, time);
            FaithfulSteps(d, d1, created, Run(d1, rs), file, tag, time, user)
  {
    var d1 := CheckpointStep(d, file, tag, time).0;
    if Contains(CheckpointName(file, tag, time), "/") {
      RunKeepsCheckpoint(d1, rs, file, tag, time);
    } else {
      StepsKept(d, file, tag, time, rs, user);
      RevertGivesBack(Run(d1, rs), file, tag, time, d.files[file], user);
    }
  }

  /** The requests that the client sends for CHECKPOINT and REVERT. */
  function CreateRequest(file: string, tag: string, time: int): Request {
    CheckpointOp(file, "CREATE" + "|" + tag, time)
  }

  function RevertRequest(file: string, tag: string, time: int): Request {
    CheckpointOp(file, "REVERT" + "|" + tag, time)
  }

  /** A tag that can be sent. */
  predicate GoodTag(tag: string) {
    IsToken(tag) && |tag| < 64
  }

  lemma CommandIsStep(d: Disk, file: string, data: string, time: int)
    requires PlainName(file) && FitsCommand(data)
    ensures WellFormed(d, CheckpointOp(file, data, time))
    ensures Step(d, CheckpointOp(file, data, time)) == CheckpointOpStep(d, file, data, time)
    ensures ParseCommand(data).CreateTag? ==>
              CheckpointOpStep(d, file, data, time) == CheckpointStep(d, file, ParseCommand(data).tag, time)
    ensures ParseCommand(data).RevertTag? ==>
              CheckpointOpStep(d, file, data, time) == RevertStep(d, file, ParseCommand(data).tag)
  {
  }

  lemma CreateIsStep(d: Disk, file: string, tag: string, time: int)
    requires PlainName(file) && GoodTag(tag)
    ensures WellFormed(d, CreateRequest(file, tag, time))
    ensures Step(d, CreateRequest(file, tag, time)) == CheckpointStep(d, file, tag, time)
  {
    PrintedCommand("CREATE", tag);
    CommandIsStep(d, file, "CREATE" + "|" + tag, time);
  }

  lemma RevertIsStep(d: Disk, file: string, tag: string, time: int)
    requires PlainName(file) && GoodTag(tag)
    ensures WellFormed(d, RevertRequest(file, tag, time))
    ensures Step(d, RevertRequest(file, tag, time)) == RevertStep(d, file, tag)
  {
    PrintedCommand("REVERT", tag);
    CommandIsStep(d, file, "REVERT" + "|" + tag, time);
  }

  lemma PrintedCommand(cmd: string, tag: string)
    requires (cmd == "CREATE" || cmd == "REVERT") && GoodTag(tag)
    ensures ParseCommand(cmd + "|" + tag) == if cmd == "CREATE" then CreateTag(tag) else RevertTag(tag)
    ensures FitsCommand(cmd + "|" + tag)
  {
    CommandRoundTrip(cmd, tag, "");
    assert tag + "" == tag;
  }

  /** If a tag is used once for a file, and nothing else writes the same checkpoint file, REVERT with the
      tag after any run succeeds exactly when CREATE did, which is when the name of the checkpoint has
      no slash.  It then gives back the content at the time of the checkpoint, and an UNDO right after
      that the content before the revert; otherwise nothing was saved and nothing changes. */
  lemma CheckpointFidelity(d: Disk, file: string, tag: string, time: int, rs: seq<Request>, later: int, user: string)
    requires Inv(d) && file in d.files && Validates(user, file) && !Reserved(file) && GoodTag(tag)
    requires FindRow(d.rows, file, tag) == None
    requires WellFormed(d, CreateRequest(file, tag, time))
    requires WellFormedRun(Step(d, CreateRequest(file, tag, time)).0, rs) && Spares(rs, file, tag, time)
    ensures var (d1, created) := Step(d, CreateRequest(file, tag, time));
            && WellFormed(Run(d1, rs), RevertRequest(file, tag, later))
            && Faithful(d, d1, created, Run(d1, rs), file, tag, time, later, user)
  {
    ValidIsPlain(file);
    CreateIsStep(d, file, tag, time);
    StepsFidelity(d, file, tag, time, rs, user);
    var (d1, created) := CheckpointStep(d, file, tag, time);
    RevertIsFaithful(d, d1, created, Run(d1, rs), file, tag, time, later, user);
  }

  lemma ValidIsPlain(file: string)
    requires ValidName(file) && !Reserved(file)
    ensures PlainName(file)
  {
    assert At("..", "..", 0);
  }

  /** The same on the requests. */
  predicate Faithful(d: Disk, d1: Disk, created: Reply, now: Disk, file: string, tag: string, time: int, later: int,
                     user: string)
    requires file in d.files && !Reserved(file) && WellFormed(now, RevertRequest(file, tag, later))
  {
    var (reverted, reply) := Step(now, RevertRequest(file, tag, later));
    && (reply.Ok? <==> created.Ok?)
    && (reply.Ok? <==> !Contains(CheckpointName(file, tag, time), "/"))
    && (reply.Ok? ==> file in reverted.files && reverted.files[file] == d.files[file])
    && (reply.Ok? && file in now.files ==>
          var (undone, answer) := Step(reverted, Undo(user, file));
          answer.Ok? && file in undone.files && undone.files[file] == now.files[file])
    && (!reply.Ok? ==> d1 == d && created == Failed(ServerError)
                       && reverted == now && reply == Failed(CheckpointNotFound))
  }

  lemma RevertIsFaithful(d: Disk, d1: Disk, created: Reply, now: Disk, file: string, tag: string, time: int,
                         later: int, user: string)
    requires file in d.files && PlainName(file) && GoodTag(tag)
    requires FaithfulSteps(d, d1, created, now, file, tag, time, user)
    ensures WellFormed(now, RevertRequest(file, tag, later))
    ensures Faithful(d, d1, created, now, file, tag, time, later, user)
  {
    RevertIsStep(now, file, tag, later);
    var reverted := RevertStep(now, file, tag).0;
    assert Step(reverted, Undo(user, file)) == UndoStep(reverted, user, file);
  }

  /** When checkpoints of two documents do meet in one file, a revert of the first document gives it the
      text of the second. */
  lemma ClashMixesDocuments(d: Disk, f1: string, t1: string, f2: string, t2: string, time: int)
    requires Inv(d) && f1 in d.files && f2 in d.files && (f1, t1) != (f2, t2)
    requires FindRow(d.rows, f1, t1) == None
    requires CheckpointName(f1, t1, time) == CheckpointName(f2, t2, time)
    requires !Contains(CheckpointName(f1, t1, time), "/")
    ensures var now := CheckpointStep(CheckpointStep(d, f1, t1, time).0, f2, t2, time).0;
            var (reverted, reply) := RevertStep(now, f1, t1);
            reply.Ok? && f1 in reverted.files && reverted.files[f1] == d.files[f2]
  {
    var name := CheckpointName(f1, t1, time);
    FindRowAppend(d.rows, Row(f1, t1, name), f1, t1);
    FindRowAppend(d.rows + [Row(f1, t1, name)], Row(f2, t2, name), f1, t1);
  }
}
