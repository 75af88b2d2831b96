/** The file-header logic of go-diff's unified-diff parser
    (vendor/github.com/sourcegraph/go-diff/diff/parse.go): the POSIX
    "Only in DIR: NAME" recogniser and its hand-off from the
    extended-header reader to the file-header reader, the classifier that
    takes file names from a `diff --git a/X b/Y` line, the
    unquote-or-verbatim fallback for names, the test that ends a hunk body
    and the text of the overflow error.

    `strconv.Unquote`, `filepath.Join` and `linePrefix` are not modelled;
    they are passed in as the functions `unquote`, `join` and `linePrefix`. */
module DiffParse {
  import opened GoBytes

  const OnlyInPrefix: Bytes := Ascii("Only in ")
  const ColonSpace: Bytes := Ascii(": ")
  const DiffGitPrefix: Bytes := Ascii("diff --git ")
  const NewFileModePrefix: Bytes := Ascii("new file mode ")
  const DeletedFileModePrefix: Bytes := Ascii("deleted file mode ")
  const RenameFromPrefix: Bytes := Ascii("rename from ")
  const RenameToPrefix: Bytes := Ascii("rename to ")
  const BinaryFilesPrefix: Bytes := Ascii("Binary files ")
  const GitBinaryPatchPrefix: Bytes := Ascii("GIT binary patch")
  const OrigFileHeaderPrefix: Bytes := Ascii("--- ")
  const OverflowPrefix: Bytes := Ascii("overflowed into next file: ")

  /** Two prefixes that differ at a position both have: no line starts
      with both. */
  lemma PrefixesClash(x: Bytes, p: Bytes, q: Bytes, k: nat)
    requires k < |p| && k < |q| && p[k] != q[k]
    ensures !(HasPrefix(x, p) && HasPrefix(x, q))
  {
  }

  // ---------------------------------------------------------------------
  // "Only in DIR: NAME"

  /** What `parseOnlyInMessage` returns: `(false, nil, nil)` or
      `(true, source, filename)`. */
  datatype OnlyIn = NotOnlyIn | OnlyIn(source: Bytes, filename: Bytes)

  /** The message POSIX `diff` prints for a file found in one directory only. */
  function FormatOnlyIn(source: Bytes, filename: Bytes): Bytes
  {
    OnlyInPrefix + source + ColonSpace + filename
  }

  /** `parseOnlyInMessage`: strips "Only in " and splits the rest at its
      first ": ". */
  function ParseOnlyInMessage(line: Bytes): (r: OnlyIn)
    ensures r.NotOnlyIn? <==>
              !HasPrefix(line, OnlyInPrefix) || !Contains(line[|OnlyInPrefix|..], ColonSpace)
    ensures r.OnlyIn? ==> line == FormatOnlyIn(r.source, r.filename)
    ensures r.OnlyIn? ==> !Contains(r.source, ColonSpace)
  {
    if !HasPrefix(line, OnlyInPrefix) then NotOnlyIn
    else
      var rest := line[|OnlyInPrefix|..];
      var idx := Index(rest, ColonSpace);
      if idx < 0 then NotOnlyIn
      else
        assert line == OnlyInPrefix + rest[..idx] + ColonSpace + rest[idx + 2..] by {
          assert rest[idx..idx + 2] == ColonSpace;
          assert rest == rest[..idx] + rest[idx..idx + 2] + rest[idx + 2..];
        }
        assert !Contains(rest[..idx], ColonSpace) by {
          forall j | 0 <= j ensures OccursAt(rest[..idx], ColonSpace, j) ==> OccursAt(rest, ColonSpace, j) {
            if j + 2 <= idx {
              OccursInPrefix(rest, ColonSpace, j, idx);
            }
          }
        }
        OnlyIn(rest[..idx], rest[idx + 2..])
  }

  /** Parsing recovers the directory and the name of every message whose
      directory holds no ": ", so the split at the first ": " is exact. */
  lemma {:induction false} OnlyInRoundTrip(source: Bytes, filename: Bytes)
    requires !Contains(source, ColonSpace)
    ensures ParseOnlyInMessage(FormatOnlyIn(source, filename)) == OnlyIn(source, filename)
  {
    var line := FormatOnlyIn(source, filename);
    forall j | 0 <= j < |source| ensures !OccursAt(source + ColonSpace, ColonSpace, j) {
      if j + 2 <= |source| {
        assert (source + ColonSpace)[j..j + 2] == source[j..j + 2];
        assert !OccursAt(source, ColonSpace, j);
      } else {
        assert (source + ColonSpace)[j + 1] == ColonSpace[0] != ColonSpace[1];
      }
    }
    IndexAfter(source, ColonSpace, filename);
    var rest := source + ColonSpace + filename;
    AppendAssoc(OnlyInPrefix, source + ColonSpace, filename);
    AppendAssoc(OnlyInPrefix, source, ColonSpace);
    assert line == OnlyInPrefix + rest;
    AppendTake(OnlyInPrefix, rest);
    AppendDrop(OnlyInPrefix, rest);
    AppendTake(source, ColonSpace + filename);
    AppendAssoc(source, ColonSpace, filename);
    AppendDrop(source + ColonSpace, filename);
  }

  // ---------------------------------------------------------------------
  // Names: unquote when possible, otherwise verbatim

  /** A name read from a header: the unquoted text when `raw` unquotes,
      and `raw` itself when unquoting reports an error. */
  function UnquoteOr(unquote: Bytes -> Option<Bytes>, raw: Bytes): (name: Bytes)
    ensures unquote(raw).Some? ==> name == unquote(raw).value
    ensures unquote(raw).None? ==> name == raw
  {
    match unquote(raw)
    case Some(u) => u
    case None => raw
  }

  // ---------------------------------------------------------------------
  // The extended-header classifier

  /** The cases of the classifier's switch, in the order of the source;
      `NotGitHeader` is the early return for a block whose first line is
      not a `diff --git ` line, `NoCase` the switch matching nothing. */
  datatype ExtCase = NotGitHeader | NewFile | DeletedFile | Rename | RenameBinary | Binary | NoCase
  {
    predicate Recognised() { !NotGitHeader? && !NoCase? }
  }

  /** The line-count test shared by the new-file and deleted-file cases:
      three lines, or four ending in "Binary files ", or more with a
      "GIT binary patch" fourth line. */
  predicate AddDeleteShape(ext: seq<Bytes>)
  {
    || |ext| == 3
    || (|ext| == 4 && HasPrefix(ext[3], BinaryFilesPrefix))
    || (|ext| > 4 && HasPrefix(ext[3], GitBinaryPatchPrefix))
  }

  predicate NewFileGuard(ext: seq<Bytes>)
  {
    AddDeleteShape(ext) && HasPrefix(ext[1], NewFileModePrefix)
  }

  predicate DeletedFileGuard(ext: seq<Bytes>)
  {
    AddDeleteShape(ext) && HasPrefix(ext[1], DeletedFileModePrefix)
  }

  predicate RenameGuard(ext: seq<Bytes>)
  {
    |ext| == 4 && HasPrefix(ext[2], RenameFromPrefix) && HasPrefix(ext[3], RenameToPrefix)
  }

  predicate RenameBinaryGuard(ext: seq<Bytes>)
  {
    && |ext| == 6
    && HasPrefix(ext[5], BinaryFilesPrefix)
    && HasPrefix(ext[2], RenameFromPrefix)
    && HasPrefix(ext[3], RenameToPrefix)
  }

  predicate BinaryGuard(ext: seq<Bytes>)
  {
    || (|ext| == 3 && HasPrefix(ext[2], BinaryFilesPrefix))
    || (|ext| > 3 && HasPrefix(ext[2], GitBinaryPatchPrefix))
  }

  /** Which branch of the classifier a block of extended headers takes:
      the early return, then the first case whose guard holds. Having no
      precondition, its guards index the block safely for every line count. */
  function Classify(ext: seq<Bytes>): (c: ExtCase)
    ensures c == NotGitHeader <==> |ext| > 0 && !HasPrefix(ext[0], DiffGitPrefix)
    ensures c.Recognised() ==> |ext| >= 3 && HasPrefix(ext[0], DiffGitPrefix)
  {
    if |ext| > 0 && !HasPrefix(ext[0], DiffGitPrefix) then NotGitHeader
    else if NewFileGuard(ext) then NewFile
    else if DeletedFileGuard(ext) then DeletedFile
    else if RenameGuard(ext) then Rename
    else if RenameBinaryGuard(ext) then RenameBinary
    else if BinaryGuard(ext) then Binary
    else NoCase
  }

  /** The guards overlap only where a new-file or deleted-file block also
      looks binary; the rename cases exclude every other case. */
  lemma GuardOverlaps(ext: seq<Bytes>)
    ensures !(NewFileGuard(ext) && DeletedFileGuard(ext))
    ensures RenameGuard(ext) ==>
              !NewFileGuard(ext) && !DeletedFileGuard(ext) && !RenameBinaryGuard(ext) && !BinaryGuard(ext)
    ensures RenameBinaryGuard(ext) ==> !NewFileGuard(ext) && !DeletedFileGuard(ext) && !BinaryGuard(ext)
  {
    if |ext| >= 2 {
      PrefixesClash(ext[1], NewFileModePrefix, DeletedFileModePrefix, 0);
    }
    if |ext| >= 4 {
      PrefixesClash(ext[3], RenameToPrefix, BinaryFilesPrefix, 0);
      PrefixesClash(ext[3], RenameToPrefix, GitBinaryPatchPrefix, 0);
      PrefixesClash(ext[2], RenameFromPrefix, GitBinaryPatchPrefix, 0);
    }
  }

  /** Each case of the classifier, stated without the order of the switch:
      the order decides only between a new-file or deleted-file block and
      the generic binary case, and there the earlier case wins. */
  lemma ClassifyCharacterization(ext: seq<Bytes>)
    ensures var git := !(|ext| > 0 && !HasPrefix(ext[0], DiffGitPrefix));
      && (Classify(ext) == NewFile <==> git && NewFileGuard(ext))
      && (Classify(ext) == DeletedFile <==> git && DeletedFileGuard(ext))
      && (Classify(ext) == Rename <==> git && RenameGuard(ext))
      && (Classify(ext) == RenameBinary <==> git && RenameBinaryGuard(ext))
      && (Classify(ext) == Binary <==>
            git && BinaryGuard(ext) && !NewFileGuard(ext) && !DeletedFileGuard(ext))
      && (Classify(ext) == NoCase <==>
            git && !NewFileGuard(ext) && !DeletedFileGuard(ext) && !RenameGuard(ext)
                && !RenameBinaryGuard(ext) && !BinaryGuard(ext))
  {
    GuardOverlaps(ext);
  }

  /** A three-line new-file block whose last line is "Binary files ..." is
      claimed by the new-file case although the binary guard holds too. */
  lemma NewFileBeatsBinary()
    ensures var ext := [DiffGitPrefix + Ascii("a/f b/f"),
                        NewFileModePrefix + Ascii("100644"),
                        BinaryFilesPrefix + Ascii("/dev/null and b/f differ")];
      BinaryGuard(ext) && Classify(ext) == NewFile
  {
    var ext := [DiffGitPrefix + Ascii("a/f b/f"),
                NewFileModePrefix + Ascii("100644"),
                BinaryFilesPrefix + Ascii("/dev/null and b/f differ")];
    assert ext[0][..|DiffGitPrefix|] == DiffGitPrefix;
    assert ext[1][..|NewFileModePrefix|] == NewFileModePrefix;
    assert ext[2][..|BinaryFilesPrefix|] == BinaryFilesPrefix;
  }

  /** `strings.SplitN(ext[0][len("diff --git "):], " ", 2)`: the two raw
      names of a `diff --git a/X b/Y` line, or one when it has no space. */
  function DiffGitNames(line: Bytes): (names: seq<Bytes>)
    requires HasPrefix(line, DiffGitPrefix)
    ensures |names| == 1 ==> line == DiffGitPrefix + names[0] && Space !in names[0]
    ensures |names| == 2 ==>
              line == DiffGitPrefix + names[0] + [Space] + names[1] && Space !in names[0]
    ensures 1 <= |names| <= 2
  {
    var names := SplitFirstSpace(line[|DiffGitPrefix|..]);
    assert line == line[..|DiffGitPrefix|] + line[|DiffGitPrefix|..];
    names
  }

  /** The name fields the branch taken assigns before it returns or panics
      (None: the branch does not assign that field in this model), and
      whether it panics on `names[1]` because the `diff --git ` line has no
      space after its prefix. */
  datatype NameUpdate = NameUpdate(orig: Option<Bytes>, renamed: Option<Bytes>, panics: bool)

  function NamesSet(ext: seq<Bytes>, unquote: Bytes -> Option<Bytes>): (u: NameUpdate)
    ensures u.orig.Some? ==>
              Classify(ext) in {DeletedFile, Rename, Binary}
              && u.orig.value == UnquoteOr(unquote, DiffGitNames(ext[0])[0])
    ensures u.renamed.Some? ==>
              Classify(ext) in {NewFile, Rename, Binary}
              && |DiffGitNames(ext[0])| == 2
              && u.renamed.value == UnquoteOr(unquote, DiffGitNames(ext[0])[1])
    ensures u.panics <==>
              Classify(ext) in {NewFile, Rename, Binary} && |DiffGitNames(ext[0])| == 1
    ensures Classify(ext) in {DeletedFile, Rename, Binary} ==> u.orig.Some?
    ensures Classify(ext) in {NewFile, Rename, Binary} && !u.panics ==> u.renamed.Some?
  {
    var c := Classify(ext);
    if !c.Recognised() || c == RenameBinary then NameUpdate(None, None, false)
    else
      var names := DiffGitNames(ext[0]);
      var orig := if c == NewFile then None else Some(UnquoteOr(unquote, names[0]));
      if c == DeletedFile then NameUpdate(orig, None, false)
      else if |names| < 2 then NameUpdate(orig, None, true)
      else NameUpdate(orig, Some(UnquoteOr(unquote, names[1])), false)
  }

  /** One file's diff: the fields the header logic fills in. Hunks are not
      part of this model. */
  class FileDiff {
    var origName: Bytes
    var newName: Bytes
    var origTime: Option<int>
    var newTime: Option<int>
    var extended: seq<Bytes>

    constructor (extended: seq<Bytes>)
      ensures this.extended == extended
      ensures origName == [] && newName == [] && origTime == None && newTime == None
    {
      this.extended := extended;
      origName, newName := [], [];
      origTime, newTime := None, None;
    }
  }

  /** `handleEmpty`: classifies `fd.Extended` and assigns the names the
      branch taken derives from the `diff --git ` line. Besides the case
      taken it reports `wasEmpty`, which this model fixes only for the early
      return (false) and the binary case (true), and whether it panicked. */
  method HandleEmpty(fd: FileDiff, unquote: Bytes -> Option<Bytes>)
      returns (wasEmpty: bool, c: ExtCase, panicked: bool)
    modifies fd
    ensures c == Classify(old(fd.extended))
    ensures fd.extended == old(fd.extended)
    ensures fd.origTime == old(fd.origTime) && fd.newTime == old(fd.newTime)
    ensures c == NotGitHeader ==>
              !wasEmpty && fd.origName == old(fd.origName) && fd.newName == old(fd.newName)
    ensures c == Binary && !panicked ==> wasEmpty
    ensures var u := NamesSet(old(fd.extended), unquote);
      && panicked == u.panics
      && (u.orig.Some? ==> fd.origName == u.orig.value)
      && (u.renamed.Some? ==> fd.newName == u.renamed.value)
  {
    var lineCount := |fd.extended|;
    if lineCount > 0 && !HasPrefix(fd.extended[0], DiffGitPrefix) {
      return false, NotGitHeader, false;
    }
    c := Classify(fd.extended);
    panicked := false;
    wasEmpty := *;  // left open by the model, except in the binary case
    match c {
      case NotGitHeader =>
        assert false;
      case NewFile =>
        var names := DiffGitNames(fd.extended[0]);
        if |names| < 2 {
          panicked := true;
          return;
        }
        fd.newName := UnquoteOr(unquote, names[1]);
      case DeletedFile =>
        var names := DiffGitNames(fd.extended[0]);
        fd.origName := UnquoteOr(unquote, names[0]);
      case Rename =>
        var names := DiffGitNames(fd.extended[0]);
        fd.origName := UnquoteOr(unquote, names[0]);
        if |names| < 2 {
          panicked := true;
          return;
        }
        fd.newName := UnquoteOr(unquote, names[1]);
      case RenameBinary =>
        fd.origName, fd.newName := *, *;  // the body of this case is not part of this model
      case Binary =>
        var names := DiffGitNames(fd.extended[0]);
        fd.origName := UnquoteOr(unquote, names[0]);
        if |names| < 2 {
          panicked := true;
          return;
        }
        fd.newName := UnquoteOr(unquote, names[1]);
        wasEmpty := true;
      case NoCase =>
    }
  }

  // ---------------------------------------------------------------------
  // Hunk bodies

  /** A read line is not part of the hunk body: it is non-empty and either
      starts with a byte that no hunk line starts with or is a `--- ` file
      header. */
  predicate EndsHunkBody(linePrefix: byte -> bool, line: Bytes)
  {
    |line| >= 1 && (!linePrefix(line[0]) || HasPrefix(line, OrigFileHeaderPrefix))
  }

  /** An empty line never ends a hunk body, and a `--- ` line always does,
      even though '-' starts removed lines. */
  lemma EndsHunkBodyCases(linePrefix: byte -> bool, line: Bytes)
    ensures line == [] ==> !EndsHunkBody(linePrefix, line)
    ensures HasPrefix(line, OrigFileHeaderPrefix) ==> EndsHunkBody(linePrefix, line)
    ensures |line| >= 1 && linePrefix(line[0]) && !HasPrefix(line, OrigFileHeaderPrefix) ==>
              !EndsHunkBody(linePrefix, line)
  {
  }

  /** The text of the error for a line that overflowed into the next file. */
  function OverflowMessage(line: Bytes): (m: Bytes)
    ensures HasPrefix(m, OverflowPrefix)
    ensures m[|OverflowPrefix|..] == line
  {
    OverflowPrefix + line
  }

  /** Distinct overflowing lines give distinct errors: the line can be
      recovered from the message. */
  lemma {:induction false} OverflowInjective(a: Bytes, b: Bytes)
    requires OverflowMessage(a) == OverflowMessage(b)
    ensures a == b
  {
    assert OverflowMessage(a)[|OverflowPrefix|..] == a;
  }

  // ---------------------------------------------------------------------
  // The reader and its stashed header line

  /** What `readOneFileHeader` yields for a `--- ` or `+++ ` line, which is
      not part of this model: the raw name and an optional timestamp. */
  datatype RawHeader = RawHeader(name: Bytes, time: Option<int>)

  /** The results of `ReadFileHeaders`. */
  datatype FileHeaders = FileHeaders(origName: Bytes, newName: Bytes, origTime: Option<int>, newTime: Option<int>)

  class FileDiffReader {
    /** A line read ahead by `ReadExtendedHeaders` and handed on to
        `ReadFileHeaders`; None stands for Go's nil. */
    var fileHeaderLine: Option<Bytes>

    constructor ()
      ensures fileHeaderLine == None
    {
      fileHeaderLine := None;
    }

    /** The step of `ReadExtendedHeaders` for one read line: an "Only in"
        message is stashed and ends the extended headers, which are
        returned as gathered so far without it. Any other line goes on to
        the rest of the loop, which is not part of this model. */
    method ReadExtendedHeaderLine(line: Bytes, xheaders: seq<Bytes>)
        returns (stop: bool, headers: seq<Bytes>)
      modifies this`fileHeaderLine
      ensures stop <==> ParseOnlyInMessage(line).OnlyIn?
      ensures headers == xheaders
      ensures fileHeaderLine == if stop then Some(line) else old(fileHeaderLine)
    {
      headers := xheaders;
      var onlyIn := ParseOnlyInMessage(line);
      stop := onlyIn.OnlyIn?;
      if stop {
        fileHeaderLine := Some(line);
      }
    }

    /** `ReadFileHeaders`: a stashed "Only in" message names the file
        `join(source, filename)` with an empty new name and no times;
        otherwise the names `readOneFileHeader` read for the `--- ` and
        `+++ ` lines are unquoted when they can be. */
    method ReadFileHeaders(join: (Bytes, Bytes) -> Bytes, unquote: Bytes -> Option<Bytes>,
                           origHeader: RawHeader, newHeader: RawHeader) returns (h: FileHeaders)
      ensures fileHeaderLine.Some? && ParseOnlyInMessage(fileHeaderLine.value).OnlyIn? ==>
                var m := ParseOnlyInMessage(fileHeaderLine.value);
                h == FileHeaders(join(m.source, m.filename), [], None, None)
      ensures !(fileHeaderLine.Some? && ParseOnlyInMessage(fileHeaderLine.value).OnlyIn?) ==>
                h == FileHeaders(UnquoteOr(unquote, origHeader.name), UnquoteOr(unquote, newHeader.name),
                                 origHeader.time, newHeader.time)
    {
      if fileHeaderLine.Some? {
        var m := ParseOnlyInMessage(fileHeaderLine.value);
        if m.OnlyIn? {
          return FileHeaders(join(m.source, m.filename), [], None, None);
        }
      }
      var origName, newName := origHeader.name, newHeader.name;
      var unquotedOrigName := unquote(origName);
      if unquotedOrigName.Some? {
        origName := unquotedOrigName.value;
      }
      var unquotedNewName := unquote(newName);
      if unquotedNewName.Some? {
        newName := unquotedNewName.value;
      }
      h := FileHeaders(origName, newName, origHeader.time, newHeader.time);
    }

    /** The start of `Read`: a FileDiff with the given extended headers and
        the file headers; when its new name is empty it is returned at once
        and no hunks are collected for it. */
    method Read(join: (Bytes, Bytes) -> Bytes, unquote: Bytes -> Option<Bytes>,
                extended: seq<Bytes>, origHeader: RawHeader, newHeader: RawHeader)
        returns (fd: FileDiff, collectHunks: bool)
      ensures fresh(fd) && fd.extended == extended
      ensures collectHunks <==> fd.newName != []
      ensures fileHeaderLine.Some? && ParseOnlyInMessage(fileHeaderLine.value).OnlyIn? ==>
                var m := ParseOnlyInMessage(fileHeaderLine.value);
                !collectHunks && fd.origName == join(m.source, m.filename) && fd.newName == []
                && fd.origTime == None && fd.newTime == None
      ensures !(fileHeaderLine.Some? && ParseOnlyInMessage(fileHeaderLine.value).OnlyIn?) ==>
                FileHeaders(fd.origName, fd.newName, fd.origTime, fd.newTime)
                == FileHeaders(UnquoteOr(unquote, origHeader.name), UnquoteOr(unquote, newHeader.name),
                               origHeader.time, newHeader.time)
    {
      fd := new FileDiff(extended);
      var h := ReadFileHeaders(join, unquote, origHeader, newHeader);
      fd.origName, fd.newName := h.origName, h.newName;
      fd.origTime, fd.newTime := h.origTime, h.newTime;
      if fd.newName == [] {
        return fd, false;
      }
      collectHunks := true;
    }
  }

  /** The hand-off end to end: an "Only in" line met while reading extended
      headers leaves those headers as they were and yields a FileDiff named
      `join(source, filename)` with an empty new name, for which no hunks
      are collected. */
  method OnlyInHandOff(line: Bytes, xheaders: seq<Bytes>,
                       join: (Bytes, Bytes) -> Bytes, unquote: Bytes -> Option<Bytes>,
                       origHeader: RawHeader, newHeader: RawHeader)
      returns (headers: seq<Bytes>, origName: Bytes, newName: Bytes, collectHunks: bool)
    requires ParseOnlyInMessage(line).OnlyIn?
    ensures headers == xheaders
    ensures origName == join(ParseOnlyInMessage(line).source, ParseOnlyInMessage(line).filename)
    ensures newName == [] && !collectHunks
  {
    var r := new FileDiffReader();
    var stop;
    stop, headers := r.ReadExtendedHeaderLine(line, xheaders);
    var fd;
    fd, collectHunks := r.Read(join, unquote, headers, origHeader, newHeader);
    origName, newName := fd.origName, fd.newName;
  }
}
