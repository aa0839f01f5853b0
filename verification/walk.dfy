/**
 The combiner's run: the `filepath.Walk` callback of `main` and the fatal
 check after the walk, modelled as a fold over the sequence of entries the
 walk visits. The filesystem is replaced by that sequence: each entry says
 whether the walk could access it, whether it is a directory and, for any
 other entry, what reading it returns.
 */
module Walk {
  import opened Extensions
  import FilePath
  import Ascii

  /** What `os.ReadFile` returns for an entry. */
  datatype ReadResult = ReadError | Content(bytes: string)

  /** One call of the walk callback. `AccessError` is a call with a non-nil
      error; `Directory` is a directory entry; `Regular` is every other entry
      (anything whose `IsDir` is false), with the outcome of reading it. */
  datatype Entry =
    | AccessError(path: string)
    | Directory(path: string)
    | Regular(path: string, read: ReadResult)

  /** The outcome of a run: a fatal walk error, after which nothing is
      written, or the text written to the output file. */
  datatype RunResult = Fatal | Ok(output: string)

  /** What the callback does with one entry: abort the walk, skip the entry
      and go on, or append a block to the output. */
  datatype Step = Abort | Skip | Emit(block: string)

  /** The labelled block appended for a file that was read: a header line
      naming the path, the content unchanged, then a blank line. Given the
      path's length, the path and the content can be read back from the
      block. */
  function Block(path: string, content: string): (r: string)
    ensures |r| == |path| + |content| + 11
    ensures r[..4] == "=== " && r[4..4 + |path|] == path
    ensures r[4 + |path|..9 + |path|] == " ===\n"
    ensures r[9 + |path|..|r| - 2] == content
    ensures r[|r| - 2..] == "\n\n"
  {
    "=== " + path + " ===\n" + content + "\n\n"
  }

  /** The walk callback on one entry: it aborts exactly on an access error,
      skips exactly the inert entries, and otherwise emits the file's block. */
  function Visit(f: Filter, e: Entry): (r: Step)
    ensures r.Abort? <==> e.AccessError?
    ensures r.Skip? <==> Inert(f, e)
    ensures r.Emit? ==> e.Regular? && e.read.Content? && r.block == Block(e.path, e.read.bytes)
  {
    match e
    case AccessError(_) => Abort
    case Directory(_) => Skip
    case Regular(path, read) =>
      if !ShouldPrintFile(path, f) then Skip
      else
        match read
        case ReadError => Skip
        case Content(bytes) => Emit(Block(path, bytes))
  }

  /** The walk from a given point: `acc` is the text appended so far. The
      first aborting entry ends the run as fatal and nothing after it is
      visited. */
  function WalkFrom(f: Filter, entries: seq<Entry>, acc: string): RunResult
    decreases |entries|
  {
    if entries == [] then Ok(acc)
    else
      match Visit(f, entries[0])
      case Abort => Fatal
      case Skip => WalkFrom(f, entries[1..], acc)
      case Emit(block) => WalkFrom(f, entries[1..], acc + block)
  }

  /** The whole run, starting from an empty output. Any access error
      anywhere makes it fatal; otherwise the output is the concatenation, in
      walk order, of one block per included file. */
  function Run(f: Filter, entries: seq<Entry>): (r: RunResult)
    ensures r.Fatal? <==> HasAccessError(entries)
    ensures !HasAccessError(entries) ==> r == Ok(Render(Included(f, entries)))
  {
    WalkFromSpec(f, entries, "");
    WalkFrom(f, entries, "")
  }

  // Reference definitions, stated without the callback.

  /** Some entry of the sequence could not be accessed. */
  predicate HasAccessError(entries: seq<Entry>) {
    exists i :: 0 <= i < |entries| && entries[i].AccessError?
  }

  /** An entry that adds nothing to the output and does not stop the walk:
      a directory, a file the filter rejects, or a file that cannot be read. */
  predicate Inert(f: Filter, e: Entry) {
    || e.Directory?
    || (e.Regular? && (!ShouldPrintFile(e.path, f) || e.read.ReadError?))
  }

  /** The (path, content) pairs of the files the run includes, in walk
      order: readable files the filter accepts. */
  function Included(f: Filter, entries: seq<Entry>): seq<(string, string)>
    decreases |entries|
  {
    if entries == [] then []
    else
      var e := entries[0];
      var rest := Included(f, entries[1..]);
      if e.Regular? && e.read.Content? && ShouldPrintFile(e.path, f)
      then [(e.path, e.read.bytes)] + rest
      else rest
  }

  /** The output text for a list of included files. */
  function Render(files: seq<(string, string)>): string
    decreases |files|
  {
    if files == [] then ""
    else Block(files[0].0, files[0].1) + Render(files[1..])
  }

  /** The entries with every inert one removed. */
  function DropInert(f: Filter, entries: seq<Entry>): seq<Entry>
    decreases |entries|
  {
    if entries == [] then []
    else if Inert(f, entries[0]) then DropInert(f, entries[1..])
    else [entries[0]] + DropInert(f, entries[1..])
  }

  // Properties of the run.

  /** Rendering distributes over concatenation of file lists. */
  lemma {:induction false} RenderAppend(a: seq<(string, string)>, b: seq<(string, string)>)
    ensures Render(a + b) == Render(a) + Render(b)
    decreases |a|
  {
    if a == [] {
      assert a + b == b;
    } else {
      assert (a + b)[1..] == a[1..] + b;
      RenderAppend(a[1..], b);
    }
  }

  /** The included files of two entry sequences in a row are those of the
      first followed by those of the second. */
  lemma {:induction false} IncludedAppend(f: Filter, a: seq<Entry>, b: seq<Entry>)
    ensures Included(f, a + b) == Included(f, a) + Included(f, b)
    decreases |a|
  {
    if a == [] {
      assert a + b == b;
    } else {
      assert (a + b)[1..] == a[1..] + b;
      IncludedAppend(f, a[1..], b);
    }
  }

  /** A file is included exactly when it occurs among the entries as a
      readable file whose path the filter accepts. */
  lemma {:induction false} IncludedMembers(f: Filter, entries: seq<Entry>, path: string, content: string)
    ensures (path, content) in Included(f, entries) <==>
      Regular(path, Content(content)) in entries && ShouldPrintFile(path, f)
    decreases |entries|
  {
    if entries != [] {
      assert entries == [entries[0]] + entries[1..];
      IncludedMembers(f, entries[1..], path, content);
    }
  }

  /** The walk from any point fails exactly when an entry cannot be accessed,
      and otherwise appends the rendered included files to what it had. */
  lemma {:induction false} WalkFromSpec(f: Filter, entries: seq<Entry>, acc: string)
    ensures WalkFrom(f, entries, acc).Fatal? <==> HasAccessError(entries)
    ensures !HasAccessError(entries) ==>
      WalkFrom(f, entries, acc) == Ok(acc + Render(Included(f, entries)))
    decreases |entries|
  {
    if entries != [] {
      var e := entries[0];
      var rest := entries[1..];
      HasAccessErrorCons(entries);
      match Visit(f, e)
      case Abort =>
      case Skip =>
        WalkFromSpec(f, rest, acc);
      case Emit(block) =>
        WalkFromSpec(f, rest, acc + block);
    }
  }

  /** A non-empty sequence has an access error exactly when its first entry
      is one or the rest has one. */
  lemma HasAccessErrorCons(entries: seq<Entry>)
    requires entries != []
    ensures HasAccessError(entries) <==> entries[0].AccessError? || HasAccessError(entries[1..])
  {
    assert entries == [entries[0]] + entries[1..];
    HasAccessErrorAppend([entries[0]], entries[1..]);
    assert HasAccessError([entries[0]]) <==> entries[0].AccessError? by {
      assert [entries[0]][0] == entries[0];
    }
  }

  /** Each step only appends: one more entry adds exactly its own block when
      it is a readable file the filter accepts, and nothing otherwise. */
  lemma RunAppend(f: Filter, entries: seq<Entry>, e: Entry)
    requires !HasAccessError(entries) && !e.AccessError?
    ensures Run(f, entries).Ok? && Run(f, entries + [e]).Ok?
    ensures Run(f, entries + [e]).output ==
      Run(f, entries).output + (if Inert(f, e) then "" else Block(e.path, e.read.bytes))
  {
    HasAccessErrorSnoc(entries, e);
    RenderIncludedSnoc(f, entries, e);
  }

  /** The output of a run over a prefix of the entries is a prefix of the
      output of the run over all of them. */
  lemma RunPrefix(f: Filter, entries: seq<Entry>, more: seq<Entry>)
    requires Run(f, entries + more).Ok?
    ensures Run(f, entries).Ok?
    ensures Run(f, entries).output <= Run(f, entries + more).output
  {
    HasAccessErrorAppend(entries, more);
    IncludedAppend(f, entries, more);
    RenderAppend(Included(f, entries), Included(f, more));
  }

  /** Removing inert entries keeps the access errors and the included files. */
  lemma {:induction false} DropInertKeeps(f: Filter, entries: seq<Entry>)
    ensures HasAccessError(DropInert(f, entries)) <==> HasAccessError(entries)
    ensures Included(f, DropInert(f, entries)) == Included(f, entries)
    decreases |entries|
  {
    if entries != [] {
      var e := entries[0];
      var rest := entries[1..];
      DropInertKeeps(f, rest);
      assert entries == [e] + rest;
      IncludedAppend(f, [e], rest);
      HasAccessErrorAppend([e], rest);
      if !Inert(f, e) {
        IncludedAppend(f, [e], DropInert(f, rest));
        HasAccessErrorAppend([e], DropInert(f, rest));
      }
    }
  }

  /** Two entry sequences in a row have an access error exactly when one of
      them has. */
  lemma HasAccessErrorAppend(a: seq<Entry>, b: seq<Entry>)
    ensures HasAccessError(a + b) <==> HasAccessError(a) || HasAccessError(b)
  {
    if HasAccessError(a) {
      var i :| 0 <= i < |a| && a[i].AccessError?;
      assert (a + b)[i] == a[i];
    }
    if HasAccessError(b) {
      var i :| 0 <= i < |b| && b[i].AccessError?;
      assert (a + b)[|a| + i] == b[i];
    }
    if HasAccessError(a + b) {
      var i :| 0 <= i < |a + b| && (a + b)[i].AccessError?;
      if i < |a| {
        assert a[i] == (a + b)[i];
      } else {
        assert b[i - |a|] == (a + b)[i];
      }
    }
  }

  /** Directories, rejected files and unreadable files neither stop the walk
      nor change its output: the run is the same with all of them removed. */
  lemma InertEntriesIrrelevant(f: Filter, entries: seq<Entry>)
    ensures Run(f, DropInert(f, entries)) == Run(f, entries)
  {
    DropInertKeeps(f, entries);
  }

  /** With the accept-all filter, the files in the output are exactly the
      readable files of the walk. */
  lemma AcceptAllIncludesReadable(entries: seq<Entry>, path: string, content: string)
    ensures (path, content) in Included(AcceptAll, entries) <==>
      Regular(path, Content(content)) in entries
  {
    IncludedMembers(AcceptAll, entries, path, content);
  }

  /** The main loop: visits the entries in order, appending to a builder,
      and stops at the first access error. */
  method Combine(f: Filter, entries: seq<Entry>) returns (r: RunResult)
    ensures r.Fatal? <==> HasAccessError(entries)
    ensures r.Ok? ==> r.output == Render(Included(f, entries))
    ensures r == Run(f, entries)
  {
    var builder := "";
    var i := 0;
    while i < |entries|
      invariant 0 <= i <= |entries|
      invariant !HasAccessError(entries[..i])
      invariant builder == Render(Included(f, entries[..i]))
    {
      var e := entries[i];
      assert entries[..i + 1] == entries[..i] + [e];
      if e.AccessError? {
        assert HasAccessError(entries) by {
          assert entries[i].AccessError?;
        }
        return Fatal;
      }
      HasAccessErrorSnoc(entries[..i], e);
      RenderIncludedSnoc(f, entries[..i], e);
      match e {
        case Directory(_) =>
        case Regular(path, read) =>
          if ShouldPrintFile(path, f) {
            match read {
              case ReadError =>
              case Content(bytes) =>
                builder := builder + Block(path, bytes);
            }
          }
      }
      i := i + 1;
    }
    assert entries[..i] == entries;
    r := Ok(builder);
  }

  /** One more entry that is not an access error keeps a sequence free of
      access errors. */
  lemma HasAccessErrorSnoc(entries: seq<Entry>, e: Entry)
    requires !HasAccessError(entries) && !e.AccessError?
    ensures !HasAccessError(entries + [e])
  {
    HasAccessErrorAppend(entries, [e]);
    assert [e][0] == e;
  }

  /** One more entry adds its block to the rendered output when it is a
      readable file the filter accepts, and nothing otherwise. */
  lemma RenderIncludedSnoc(f: Filter, entries: seq<Entry>, e: Entry)
    ensures Render(Included(f, entries + [e])) == Render(Included(f, entries)) +
      (if e.Regular? && e.read.Content? && ShouldPrintFile(e.path, f)
       then Block(e.path, e.read.bytes) else "")
  {
    IncludedAppend(f, entries, [e]);
    RenderAppend(Included(f, entries), Included(f, [e]));
    assert [e][1..] == [] && [e][0] == e;
    assert Included(f, [e][1..]) == [];
    var files := Included(f, [e]);
    if e.Regular? && e.read.Content? && ShouldPrintFile(e.path, f) {
      assert files == [(e.path, e.read.bytes)];
      assert files[1..] == [];
    } else {
      assert files == [];
    }
  }

  /** A directory holding `a.go` with content `x` and `b.md` with content `y`,
      filtered by the token `.go`, gives exactly the block of `a.go`. */
  lemma RunExample()
    ensures Run(NormalizeExtensions([".go"]), [
        Directory("root"),
        Regular("root/a.go", Content("x")),
        Regular("root/b.md", Content("y"))
      ]) == Ok("=== root/a.go ===\nx\n\n")
  {
    var f := NormalizeExtensions([".go"]);
    GoFilter();
    var a := Regular("root/a.go", Content("x"));
    var b := Regular("root/b.md", Content("y"));
    ExampleVisits(f, a, b);
    var block := Block("root/a.go", "x");
    assert [b][1..] == [];
    assert WalkFrom(f, [b], block) == Ok(block);
    assert [a, b][1..] == [b] && [a, b][0] == a;
    assert "" + block == block;
    assert WalkFrom(f, [a, b], "") == Ok(block);
    assert [Directory("root"), a, b][1..] == [a, b];
    assert WalkFrom(f, [Directory("root"), a, b], "") == Ok(block);
    ExampleBlock();
  }

  lemma ExampleBlock()
    ensures Block("root/a.go", "x") == "=== root/a.go ===\nx\n\n"
  {
  }

  lemma GoFilter()
    ensures NormalizeExtensions([".go"]) == Keys({".go"})
  {
    NormalizeExamples();
    assert KeySet([".go"]) == KeySet([]) + {NormalizeToken(".go")};
  }

  lemma ExampleVisits(f: Filter, a: Entry, b: Entry)
    requires f == Keys({".go"})
    requires a == Regular("root/a.go", Content("x"))
    requires b == Regular("root/b.md", Content("y"))
    ensures Visit(f, Directory("root")) == Skip
    ensures Visit(f, a) == Emit(Block("root/a.go", "x"))
    ensures Visit(f, b) == Skip
  {
    assert FilePath.LastDotAt("root/a.go", 6);
    FilePath.ExtLastDot("root/a.go", 6);
    assert FilePath.LastDotAt("root/b.md", 6);
    FilePath.ExtLastDot("root/b.md", 6);
    assert Ascii.ToLower(".go") == ".go";
    assert Ascii.ToLower(".md") != ".go" by {
      assert Ascii.ToLower(".md")[1] == 'm';
    }
    assert ShouldPrintFile("root/a.go", f);
    assert !ShouldPrintFile("root/b.md", f);
  }
}
