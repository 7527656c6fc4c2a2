/** Where the storage server's files are: every name that passes the checks is a file of its own
    directly inside its directory, so the three directories may be modelled as three maps.

    Paths are resolved by their components; the server makes no symbolic links.
 */
module Paths {
  import opened Scan
  import opened Location
  import opened StorageSpec
  import opened Checkpoints

  // ----- resolving a path -----

  function Components(path: string): seq<string>
    decreases |path|
  {
    var n := SpanNot(path, '/');
    if n >= |path| then [path] else [path[..n]] + Components(path[n + 1..])
  }

  /** One step from a directory, given by the names that lead to it. */
  function Enter(dir: seq<string>, part: string): seq<string> {
    if part == "" || part == "." then dir
    else if part == ".." then if dir == [] then [] else dir[..|dir| - 1]
    else dir + [part]
  }

  function Walk(dir: seq<string>, parts: seq<string>): seq<string>
    decreases |parts|
  {
    if parts == [] then dir else Walk(Enter(dir, parts[0]), parts[1..])
  }

  function Resolve(path: string): seq<string> {
    Walk([], Components(path))
  }

  /** "%s/%s" */
  function Child(dir: string, name: string): string {
    dir + ("/" + name)
  }

  lemma FirstComponent(head: string, rest: string)
    requires Avoids(head, '/')
    ensures Components(head) == [head]
    ensures Components(Child(head, rest)) == [head] + Components(rest)
  {
    SpanNotOf(head, '/', "");
    assert head + "" == head;
    SpanNotOf(head, '/', "/" + rest);
    assert Child(head, rest)[..|head|] == head && Child(head, rest)[|head| + 1..] == rest;
  }

  lemma ChildOfChild(head: string, rest: string, name: string)
    ensures Child(Child(head, rest), name) == Child(head, Child(rest, name))
  {
    assert (head + ("/" + rest)) + ("/" + name) == head + ("/" + (rest + ("/" + name)));
  }

  lemma SplitAtSlash(path: string) returns (head: string, rest: string)
    requires !Avoids(path, '/')
    ensures Avoids(head, '/') && path == Child(head, rest) && |rest| < |path|
  {
    SpanNotInside(path, '/', "");
    var n := SpanNot(path, '/');
    head, rest := path[..n], path[n + 1..];
  }

  lemma {:induction false} ComponentsOfChild(dir: string, name: string)
    requires Avoids(name, '/')
    ensures Components(Child(dir, name)) == Components(dir) + [name]
    decreases |dir|
  {
    FirstComponent(name, "");
    if Avoids(dir, '/') {
      FirstComponent(dir, name);
    } else {
      var head, rest := SplitAtSlash(dir);
      ChildOfChild(head, rest, name);
      FirstComponent(head, rest);
      FirstComponent(head, Child(rest, name));
      ComponentsOfChild(rest, name);
    }
  }

  lemma {:induction false} WalkLast(dir: seq<string>, parts: seq<string>, last: string)
    ensures Walk(dir, parts + [last]) == Enter(Walk(dir, parts), last)
    decreases |parts|
  {
    if parts != [] {
      assert (parts + [last])[1..] == parts[1..] + [last];
      WalkLast(Enter(dir, parts[0]), parts[1..], last);
    }
  }

  lemma ResolveChild(dir: string, name: string)
    requires Avoids(name, '/')
    ensures Resolve(Child(dir, name)) == Enter(Resolve(dir), name)
  {
    ComponentsOfChild(dir, name);
    WalkLast([], Components(dir), name);
  }

  /** A name without a slash is a file directly inside the directory exactly when it is not one of the
      three names that lead elsewhere. */
  lemma StaysInside(dir: string, name: string)
    requires Avoids(name, '/')
    ensures Resolve(Child(dir, name)) == Resolve(dir) + [name] <==> name !in {"", ".", ".."}
  {
    ResolveChild(dir, name);
    assert |Resolve(dir) + [name]| == |Resolve(dir)| + 1;
  }

  // ----- the names that requests use -----

  /** What the checks of the handlers let through. */
  lemma ValidatedIsPlain(user: string, file: string)
    requires Validates(user, file) && !Reserved(file)
    ensures PlainName(file)
  {
    assert At("..", "..", 0);
  }

  /** A checkpoint that can be stored is a file of its own as well. */
  lemma StorableName(file: string, tag: string, time: int)
    requires PlainName(file) && !Contains(CheckpointName(file, tag, time), "/")
    ensures Avoids(CheckpointName(file, tag, time), '/') && CheckpointName(file, tag, time) !in {"", ".", ".."}
  {
    var name := CheckpointName(file, tag, time);
    ContainsSlash(name);
    assert name[0] == RawName(file, tag, time)[0] == file[0];
    if |file| < |name| {
      assert name[|file|] == RawName(file, tag, time)[|file|] == '_';
    }
  }

  /** Every name in the state is a file of its own in its directory. */
  predicate Named(d: Disk) {
    && (forall f :: f in d.files ==> PlainName(f))
    && (forall f :: f in d.undo ==> PlainName(f))
    && (forall c :: c in d.saved ==> Avoids(c, '/') && c !in {"", ".", ".."})
  }

  /** A request adds at most the name it came with, and only if that name passed. */
  lemma StepAddsName(d: Disk, r: Request)
    requires WellFormed(d, r)
    ensures Step(d, r).0.files.Keys <= d.files.Keys + {r.file} && Step(d, r).0.undo.Keys <= d.undo.Keys + {r.file}
    ensures PlainName(r.file) || Step(d, r).0 == d
  {
    if !PlainName(r.file) && Validates(r.user, r.file) {
      ValidatedIsPlain(r.user, r.file);
    }
  }

  lemma StepKeepsSaved(d: Disk, r: Request)
    requires WellFormed(d, r) && Named(d)
    ensures forall c :: c in Step(d, r).0.saved ==> Avoids(c, '/') && c !in {"", ".", ".."}
  {
    if r.CheckpointOp? && ParseCommand(r.data).CreateTag? {
      var tag := ParseCommand(r.data).tag;
      if !Contains(CheckpointName(r.file, tag, r.time), "/") {
        StorableName(r.file, tag, r.time);
      }
    } else {
      OtherStepKeepsCheckpoints(d, r);
    }
  }

  lemma StepKeepsNamed(d: Disk, r: Request)
    requires WellFormed(d, r) && Named(d)
    ensures Named(Step(d, r).0)
  {
    StepAddsName(d, r);
    StepKeepsSaved(d, r);
  }

  lemma {:induction false} RunKeepsNamed(d: Disk, rs: seq<Request>)
    requires WellFormedRun(d, rs) && Named(d)
    ensures Named(Run(d, rs))
    decreases |rs|
  {
    if rs != [] {
      StepKeepsNamed(d, rs[0]);
      RunKeepsNamed(Step(d, rs[0]).0, rs[1..]);
    }
  }

  /** In every reachable state, documents, undo slots and checkpoints are files directly inside the data
      directory, its `undo` and its `checkpoints` directory, and no document is in the way of those two
      or of the database. */
  lemma FilesStayInside(rs: seq<Request>, dir: string)
    requires WellFormedRun(EMPTY_DISK, rs)
    ensures var d, base := Run(EMPTY_DISK, rs), Resolve(dir);
            && (forall f :: f in d.files ==> Resolve(Child(dir, f)) == base + [f] && !Reserved(f))
            && (forall f :: f in d.undo ==> Resolve(Child(Child(dir, "undo"), f)) == base + ["undo", f])
            && (forall c :: c in d.saved ==>
                  Resolve(Child(Child(dir, "checkpoints"), c)) == base + ["checkpoints", c])
  {
    RunKeepsNamed(EMPTY_DISK, rs);
    var d := Run(EMPTY_DISK, rs);
    forall f | PlainName(f) ensures Resolve(Child(dir, f)) == Resolve(dir) + [f] {
      PlainIsChild(dir, f);
    }
    forall f | PlainName(f) ensures Resolve(Child(Child(dir, "undo"), f)) == Resolve(dir) + ["undo", f] {
      PlainIsGrandchild(dir, "undo", f);
    }
    forall c | c in d.saved
      ensures Resolve(Child(Child(dir, "checkpoints"), c)) == Resolve(dir) + ["checkpoints", c]
    {
      TwoLevels(dir, "checkpoints", c);
    }
  }

  predicate IsSubdirectory(sub: string) {
    sub == "undo" || sub == "checkpoints"
  }

  lemma PlainIsChild(dir: string, file: string)
    requires PlainName(file)
    ensures Resolve(Child(dir, file)) == Resolve(dir) + [file]
  {
    ContainsSlash(file);
    StaysInside(dir, file);
  }

  lemma PlainIsGrandchild(dir: string, sub: string, file: string)
    requires IsSubdirectory(sub) && PlainName(file)
    ensures Resolve(Child(Child(dir, sub), file)) == Resolve(dir) + [sub, file]
  {
    ContainsSlash(file);
    TwoLevels(dir, sub, file);
  }

  lemma TwoLevels(dir: string, sub: string, name: string)
    requires IsSubdirectory(sub) && Avoids(name, '/') && name !in {"", ".", ".."}
    ensures Resolve(Child(Child(dir, sub), name)) == Resolve(dir) + [sub, name]
  {
    StaysInside(dir, sub);
    StaysInside(Child(dir, sub), name);
    assert Resolve(dir) + [sub] + [name] == Resolve(dir) + [sub, name];
  }
}
