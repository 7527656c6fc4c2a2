/** The storage server as it is written: handlers that overwrite files, undo slots and table rows, and
    edit word and sentence arrays in place.  Each one is proved to make the step of `StorageSpec`.
 */
module StorageServers {
  import opened Options
  import opened Scan
  import opened Location
  import opened Text
  import opened TextLoops
  import opened WordEdit
  import opened PlainText
  import opened StorageSpec
  import opened StorageRuns

  /** The word edit on arrays: overwrite one word, rebuild its sentence, rebuild the text. */
  method EditContent(content: string, sentence: int, word: int, text: string) returns (result: EditResult)
    requires NoNul(content)
    ensures result == EditWord(content, Edit(sentence, word, text))
  {
    var sentences := new string[MAX_SENTENCES](_ => "");
    var sentenceCount := ParseSentences(content, sentences, MAX_SENTENCES);
    ghost var ss := sentences[..sentenceCount];
    if sentence < 0 || sentence >= sentenceCount {
      return BadSentence;
    }
    ParseNoNul(content);
    assert sentences[sentence] == ss[sentence];
    var words := new string[MAX_WORDS_PER_SENTENCE](_ => "");
    var wordCount := ParseWords(sentences[sentence], words, MAX_WORDS_PER_SENTENCE);
    ghost var ws := words[..wordCount];
    if word < 0 || word >= wordCount {
      return BadWord;
    }
    words[word] := text;
    assert words[..wordCount] == ws[word := text];
    var newSentence := JoinLoop(words, wordCount);
    sentences[sentence] := newSentence;
    assert sentences[..sentenceCount] == ss[sentence := newSentence];
    var finalContent := JoinLoop(sentences, sentenceCount);
    return Edited(finalContent);
  }

  class StorageServer {
    var files: map<string, string>
    var undo: map<string, string>
    var saved: map<string, string>
    var rows: seq<Row>
    var meta: map<string, Stats>

    ghost function View(): Disk
      reads this
    {
      Disk(files, undo, saved, rows, meta)
    }

    ghost predicate Valid()
      reads this
    {
      Inv(View())
    }

    constructor ()
      ensures Valid() && View() == EMPTY_DISK
    {
      files, undo, saved, rows, meta := map[], map[], map[], [], map[];
    }

    // ----- ss_main.c -----

    method CountStats(content: string) returns (stats: Stats)
      requires NoNul(content)
      ensures stats == StatsOf(content)
    {
      var sentences := new string[MAX_SENTENCES](_ => "");
      var sentenceCount := ParseSentences(content, sentences, MAX_SENTENCES);
      ghost var ss := Parse(content);
      ParseNoNul(content);
      var wordCount := 0;
      var i := 0;
      while i < sentenceCount
        invariant 0 <= i <= sentenceCount && sentences[..sentenceCount] == ss
        invariant wordCount == CountWords(ss[..i])
      {
        assert sentences[i] == sentences[..sentenceCount][i] == ss[i];
        var words := new string[MAX_WORDS_PER_SENTENCE](_ => "");
        var n := ParseWords(sentences[i], words, MAX_WORDS_PER_SENTENCE);
        assert n == |words[..n]|;
        assert ss[..i + 1][..i] == ss[..i];
        wordCount := wordCount + n;
        i := i + 1;
      }
      assert ss[..i] == ss;
      stats := Stats(wordCount, |content|, sentenceCount);
    }

    method SaveFileContent(file: string, content: string)
      requires NoNul(content)
      modifies this`files, this`meta
      ensures View() == Save(old(View()), file, content)
    {
      files := files[file := content];
      var stats := CountStats(content);
      meta := meta[file := stats];
    }

    /** In a valid state the buffer holds the whole file. */
    method LoadFileContent(file: string) returns (content: Option<string>)
      requires Valid()
      ensures content == if file in files then Some(files[file]) else None
    {
      content := if file in files then Some(Load(files[file])) else None;
    }

    /** An UNDO of an existing file would now write exactly this content. */
    method SaveUndoState(file: string, content: string)
      requires |content| < BUFFER_SIZE
      modifies this`undo
      ensures View() == old(View()).(undo := old(undo)[file := content])
      ensures forall user :: Validates(user, file) && file in files ==>
                UndoStep(View(), user, file) == (Save(View(), file, content), Ok("Undo successful"))
    {
      undo := undo[file := content];
    }

    // ----- ss_handlers.c -----

    method HandleCreate(user: string, file: string) returns (reply: Reply)
      requires Valid() && !Reserved(file)
      modifies this
      ensures Valid() && (View(), reply) == Step(old(View()), Create(user, file))
    {
      StepKeepsInv(View(), Create(user, file));
      if !Validates(user, file) {
        return Failed(PermissionDenied);
      }
      if file in files {
        return Failed(FileExists);
      }
      files := files[file := ""];
      if file !in meta {
        meta := meta[file := Stats(0, 0, 0)];
      }
      return Ok("File created");
    }

    method HandleRead(user: string, file: string) returns (reply: Reply)
      requires Valid() && !Reserved(file)
      ensures (View(), reply) == Step(View(), Read(user, file))
    {
      if !Validates(user, file) {
        return Failed(PermissionDenied);
      }
      var content := LoadFileContent(file);
      if content.None? {
        return Failed(FileNotFound);
      }
      return Ok(content.value);
    }

    /** Both shapes of a write. */
    method HandleWrite(user: string, file: string, data: string) returns (reply: Reply)
      requires Valid() && WellFormed(View(), Write(user, file, data))
      modifies this
      ensures Valid() && (View(), reply) == Step(old(View()), Write(user, file, data))
    {
      StepKeepsInv(View(), Write(user, file, data));
      if !Validates(user, file) {
        return Failed(PermissionDenied);
      }
      var command := ParseWrite(data);
      if command.WordCommand? {
        var current := LoadFileContent(file);
        if current.None? {
          return Failed(FileNotFound);
        }
        CommandTextNoNul(data);
        reply := WriteWord(file, current.value, command.sentence, command.word, command.text);
      } else {
        reply := WriteFull(file, data);
      }
    }

    method WriteFull(file: string, data: string) returns (reply: Reply)
      requires Valid() && NoNul(data)
      modifies this
      ensures (View(), reply) == (Save(SaveUndo(old(View()), file), file, data), Ok("Write successful"))
    {
      var current := LoadFileContent(file);
      if current.Some? {
        SaveUndoState(file, current.value);
      }
      SaveFileContent(file, data);
      return Ok("Write successful");
    }

    method WriteWord(file: string, current: string, sentence: int, word: int, text: string) returns (reply: Reply)
      requires Valid() && file in files && current == Load(files[file])
      requires NoNul(text)
      modifies this
      ensures (View(), reply)
              == FinishEdit(SaveUndo(old(View()), file), file, EditWord(current, Edit(sentence, word, text)))
    {
      SaveUndoState(file, current);
      var result := EditContent(current, sentence, word, text);
      match result {
        case BadSentence => return Failed(InvalidParam);
        case BadWord => return Failed(InvalidParam);
        case Edited(content) =>
          EditNoNul(current, Edit(sentence, word, text));
          SaveFileContent(file, content);
          return Ok("Write successful");
      }
    }

    method HandleDelete(user: string, file: string) returns (reply: Reply)
      requires Valid() && !Reserved(file)
      modifies this
      ensures Valid() && (View(), reply) == Step(old(View()), Delete(user, file))
    {
      StepKeepsInv(View(), Delete(user, file));
      if !Validates(user, file) {
        return Failed(PermissionDenied);
      }
      if file !in files {
        return Failed(FileNotFound);
      }
      files := files - {file};
      meta := meta - {file};
      undo := undo - {file};
      return Ok("File deleted");
    }

    /** Sends the words of one sentence. */
    method StreamSentence(sentence: string, sent: seq<string>) returns (sent': seq<string>)
      requires NoNul(sentence)
      ensures sent' == sent + Words(sentence)
    {
      var words := new string[MAX_WORDS_PER_SENTENCE](_ => "");
      var n := ParseWords(sentence, words, MAX_WORDS_PER_SENTENCE);
      sent' := sent;
      var j := 0;
      while j < n
        invariant 0 <= j <= n && sent' == sent + words[..j]
      {
        sent' := sent' + [words[j]];
        j := j + 1;
      }
    }

    method StreamContent(content: string) returns (sent: seq<string>)
      requires NoNul(content)
      ensures sent == AllWordsOf(Parse(content))
    {
      var sentences := new string[MAX_SENTENCES](_ => "");
      var sentenceCount := ParseSentences(content, sentences, MAX_SENTENCES);
      ghost var ss := Parse(content);
      ParseNoNul(content);
      sent := [];
      var i := 0;
      while i < sentenceCount
        invariant 0 <= i <= sentenceCount && sentences[..sentenceCount] == ss
        invariant sent == AllWordsOf(ss[..i])
      {
        assert sentences[i] == sentences[..sentenceCount][i] == ss[i];
        assert ss[..i + 1][..i] == ss[..i];
        sent := StreamSentence(sentences[i], sent);
        i := i + 1;
      }
      assert ss[..i] == ss;
    }

    method HandleStream(user: string, file: string) returns (reply: Reply)
      requires Valid() && !Reserved(file)
      ensures (View(), reply) == Step(View(), Stream(user, file))
    {
      if !Validates(user, file) {
        return Failed(PermissionDenied);
      }
      var content := LoadFileContent(file);
      if content.None? {
        return Failed(FileNotFound);
      }
      var sent := StreamContent(content.value);
      return Streamed(sent);
    }

    method HandleUndo(user: string, file: string) returns (reply: Reply)
      requires Valid() && !Reserved(file)
      modifies this
      ensures Valid() && (View(), reply) == Step(old(View()), Undo(user, file))
    {
      StepKeepsInv(View(), Undo(user, file));
      if !Validates(user, file) {
        return Failed(PermissionDenied);
      }
      if file !in undo {
        return Failed(FileNotFound);
      }
      var current := LoadFileContent(file);
      if current.None? {
        return Failed(FileNotFound);
      }
      SaveFileContent(file, Load(undo[file]));
      return Ok("Undo successful");
    }

    method HandleReplicate(file: string, data: string) returns (reply: Reply)
      requires Valid() && WellFormed(View(), Replicate(file, data))
      modifies this
      ensures Valid() && (View(), reply) == Step(old(View()), Replicate(file, data))
    {
      SaveKeepsInv(View(), file, data);
      SaveFileContent(file, data);
      return Ok("Replicated successfully");
    }

    method SelectRow(file: string, tag: string) returns (r: Option<string>)
      ensures r == FindRow(rows, file, tag)
    {
      var i := 0;
      while i < |rows|
        invariant 0 <= i <= |rows| && FindRow(rows, file, tag) == FindRow(rows[i..], file, tag)
      {
        if rows[i].file == file && rows[i].tag == tag {
          return Some(rows[i].checkpointFile);
        }
        i := i + 1;
      }
      return None;
    }

    method CreateCheckpoint(file: string, tag: string, time: int) returns (reply: Reply)
      requires Valid()
      modifies this
      ensures (View(), reply) == CheckpointStep(old(View()), file, tag, time)
    {
      var content := LoadFileContent(file);
      if content.None? {
        return Failed(FileNotFound);
      }
      var name := CheckpointName(file, tag, time);
      if Contains(name, "/") {
        return Failed(ServerError);
      }
      saved := saved[name := content.value];
      rows := rows + [Row(file, tag, name)];
      return Ok("Checkpoint '" + tag + "' created");
    }

    method Revert(file: string, tag: string) returns (reply: Reply)
      requires Valid()
      modifies this
      ensures (View(), reply) == RevertStep(old(View()), file, tag)
    {
      var name := SelectRow(file, tag);
      if name.None? || name.value !in saved {
        return Failed(CheckpointNotFound);
      }
      var content := Load(saved[name.value]);
      var current := LoadFileContent(file);
      if current.Some? {
        SaveUndoState(file, current.value);
      }
      SaveFileContent(file, content);
      return Ok("Reverted to checkpoint '" + tag + "'");
    }

    method HandleCheckpointOps(file: string, data: string, time: int) returns (reply: Reply)
      requires Valid() && WellFormed(View(), CheckpointOp(file, data, time))
      modifies this
      ensures Valid() && (View(), reply) == Step(old(View()), CheckpointOp(file, data, time))
    {
      StepKeepsInv(View(), CheckpointOp(file, data, time));
      assert Step(View(), CheckpointOp(file, data, time)) == CheckpointOpStep(View(), file, data, time);
      match ParseCommand(data) {
        case NoCommand => return Failed(InvalidParam);
        case CreateTag(tag) => reply := CreateCheckpoint(file, tag, time);
        case RevertTag(tag) => reply := Revert(file, tag);
        case Other => return Ok("");
      }
    }

    // ----- the dispatcher (ss_main.c) -----

    method HandleRequest(r: Request) returns (reply: Reply)
      requires Valid() && WellFormed(View(), r)
      modifies this
      ensures Valid() && (View(), reply) == Step(old(View()), r)
    {
      match r {
        case Create(user, file) => reply := HandleCreate(user, file);
        case Read(user, file) => reply := HandleRead(user, file);
        case Write(user, file, data) => reply := HandleWrite(user, file, data);
        case Delete(user, file) => reply := HandleDelete(user, file);
        case Stream(user, file) => reply := HandleStream(user, file);
        case Undo(user, file) => reply := HandleUndo(user, file);
        case Replicate(file, data) => reply := HandleReplicate(file, data);
        case CheckpointOp(file, data, time) => reply := HandleCheckpointOps(file, data, time);
      }
    }
  }
}
