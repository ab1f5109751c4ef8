/**
  What `read`, `write`, `copy` and each `parse` of ssg/parsers.py do to the
  files, as functions from the disk before the call to the disk after it.
*/
module Effects {
  import opened Outcomes
  import opened Paths
  import opened Parsers

  /** The text of a file; decoding is not modelled, so copied bytes and read text are one thing. */
  type Contents = string

  /** The file system: the contents of every file, and the set of existing directories. */
  datatype Disk = Disk(files: map<Path, Contents>, dirs: set<Path>)

  /** No path is both a file and a directory. */
  predicate Consistent(d: Disk) {
    d.files.Keys !! d.dirs
  }

  /**
    The outcome of a call that may write a file, and the disk after it.
    `Ok(t)` names the one file written (the Python methods return None).
  */
  datatype Step = Step(result: Result<Path>, disk: Disk)

  /** What `Content.load` returns: the metadata block and the body after it. */
  datatype Content = Content(metadata: map<string, string>, body: string)

  /**
    The code that ssg/parsers.py calls but does not define: `Content.load`,
    `markdown.markdown`, and `publish_parts(..., writer_name="html5")["html_body"]`.
  */
  datatype Renderers = Renderers(
    load: string -> Content,
    markdown: string -> string,
    htmlBody: string -> string)

  /** The HTML that a converting variant makes of a file's text: its renderer applied to the loaded body. */
  function Converted(libs: Renderers, p: Parser, text: Contents): string
    requires p == Markdown || p == ReStructuredText
  {
    var body := libs.load(text).body;
    if p == Markdown then libs.markdown(body) else libs.htmlBody(body)
  }

  /** `Parser.read`: `open(path, "r").read()`. */
  function ReadFile(d: Disk, path: Path): (r: Result<Contents>)
    ensures r.Ok? <==> path in d.files
    ensures r.Ok? ==> r.value == d.files[path]
  {
    if path in d.files then Ok(d.files[path])
    else if path in d.dirs then Err(IsADirectory)
    else Err(FileNotFound)
  }

  /** Opening `target` for writing, truncating it, and writing `content` into it. */
  function StoreFile(d: Disk, target: Path, content: Contents): Step {
    if target in d.dirs then Step(Err(IsADirectory), d)
    else if Parent(target) !in d.dirs then Step(Err(NoParentDirectory), d)
    else Step(Ok(target), d.(files := d.files[target := content]))
  }

  /** `Parser.write(path, dest, content, ext)`. */
  function WriteFile(d: Disk, path: Path, dest: Path, content: Contents, ext: string): Step {
    match WriteTarget(path, dest, ext)
    case Err(e) => Step(Err(e), d)
    case Ok(target) => StoreFile(d, target, content)
  }

  /** `os.path.basename` of the copied file, as a relative path. */
  function BaseName(path: Path): Path {
    if Name(path) == "" then [] else [Name(path)]
  }

  /** `shutil.copy2` copies into `dst` itself when it is an existing directory. */
  function CopyDestination(d: Disk, dst: Path, path: Path): Path {
    if dst in d.dirs then Join(dst, BaseName(path)) else dst
  }

  /**
    `Parser.copy(path, source, dest)`: `shutil.copy2(path, dest / path.relative_to(source))`,
    which refuses to copy a file onto itself, opens the source before the destination,
    and copies the contents unchanged.
  */
  function CopyFile(d: Disk, path: Path, source: Path, dest: Path): Step {
    match CopyTarget(path, source, dest)
    case Err(e) => Step(Err(e), d)
    case Ok(target) =>
      var dst := CopyDestination(d, target, path);
      if path == dst && (path in d.files || path in d.dirs) then Step(Err(SameFile), d)
      else
        match ReadFile(d, path)
        case Err(e) => Step(Err(e), d)
        case Ok(data) => StoreFile(d, dst, data)
  }

  /** `parse(path, source, dest)` of each variant. */
  function ParseFile(d: Disk, p: Parser, path: Path, source: Path, dest: Path, libs: Renderers): Step {
    match p
    case Base => Step(Err(NotImplemented), d)
    case Resource => CopyFile(d, path, source, dest)
    case Markdown | ReStructuredText =>
      match ReadFile(d, path)
      case Err(e) => Step(Err(e), d)
      case Ok(text) => WriteFile(d, path, dest, Converted(libs, p, text), HtmlExt)
  }

  /**
    `write` fails only on a bad name or suffix, a directory in the way, or a
    missing `dest`; an existing file is overwritten. Afterwards the target
    holds exactly `content` and nothing else has changed.
  */
  lemma WriteFileEffect(d: Disk, path: Path, dest: Path, content: Contents, ext: string)
    ensures var s := WriteFile(d, path, dest, content, ext);
            var t := WriteTarget(path, dest, ext);
            && s.disk.dirs == d.dirs
            && (s.result.Ok? <==> t.Ok? && t.value !in d.dirs && dest in d.dirs)
            && (s.result.Ok? ==> s.result == t && s.disk.files == d.files[t.value := content])
            && (s.result.Err? ==> s.disk == d)
  {
  }

  /**
    `copy` fails with NotRelative exactly when `path` is not under `source`;
    when it succeeds the destination holds the source file's contents and
    nothing else has changed.
  */
  lemma CopyFileEffect(d: Disk, path: Path, source: Path, dest: Path)
    ensures var s := CopyFile(d, path, source, dest);
            && s.disk.dirs == d.dirs
            && (s.result == Err(NotRelative) <==> RelativeTo(path, source).Err?)
            && (s.result.Ok? ==> && path in d.files
                                 && s.result.value == CopyDestination(d, CopyTarget(path, source, dest).value, path)
                                 && s.result.value != path
                                 && s.disk.files == d.files[s.result.value := d.files[path]])
            && (s.result.Err? ==> s.disk == d)
  {
  }

  /**
    Copying `source / rel` when `dest / rel` is not a directory writes
    `dest / rel`, byte for byte, and succeeds exactly when the file exists,
    is not the destination itself, and the destination's directory exists.
  */
  lemma CopyKeepsRelativePath(d: Disk, source: Path, rel: Path, dest: Path)
    requires !IsAbsolute(rel) && dest + rel !in d.dirs
    ensures var path := Join(source, rel);
            var s := CopyFile(d, path, source, dest);
            && (s.result.Ok? <==> path in d.files && path != dest + rel && Parent(dest + rel) in d.dirs)
            && (s.result.Ok? ==> s.result.value == dest + rel && s.disk.files[dest + rel] == d.files[path])
  {
  }

  /** Every `parse` leaves the directories alone and changes at most the one file it reports. */
  lemma ParseTouchesOneFile(d: Disk, p: Parser, path: Path, source: Path, dest: Path, libs: Renderers)
    ensures var s := ParseFile(d, p, path, source, dest, libs);
            && s.disk.dirs == d.dirs
            && (s.result.Err? ==> s.disk == d)
            && (s.result.Ok? ==> s.result.value in s.disk.files
                                 && s.disk.files == d.files[s.result.value := s.disk.files[s.result.value]])
  {
    match p
    case Base =>
    case Resource => CopyFileEffect(d, path, source, dest);
    case Markdown | ReStructuredText =>
      if path in d.files {
        WriteFileEffect(d, path, dest, Converted(libs, p, d.files[path]), HtmlExt);
      }
  }

  /** No `parse` makes a path both a file and a directory. */
  lemma ParseKeepsConsistent(d: Disk, p: Parser, path: Path, source: Path, dest: Path, libs: Renderers)
    requires Consistent(d)
    ensures Consistent(ParseFile(d, p, path, source, dest, libs).disk)
  {
  }

  /** The base class raises NotImplementedError and changes nothing. */
  lemma BaseParseFails(d: Disk, path: Path, source: Path, dest: Path, libs: Renderers)
    ensures ParseFile(d, Base, path, source, dest, libs) == Step(Err(NotImplemented), d)
  {
  }

  /**
    The Markdown and reStructuredText variants write the rendered body to
    `dest` under the source's stem with the suffix ".html", and fail only when
    the source is not a readable file, or the output cannot be opened.
  */
  lemma ConvertedOutput(d: Disk, p: Parser, path: Path, source: Path, dest: Path, libs: Renderers)
    requires p == Markdown || p == ReStructuredText
    ensures var s := ParseFile(d, p, path, source, dest, libs);
            && (s.result.Ok? <==> && path in d.files
                                  && WriteTarget(path, dest, HtmlExt).Ok?
                                  && WriteTarget(path, dest, HtmlExt).value !in d.dirs
                                  && dest in d.dirs)
            && (s.result.Ok? ==> var t := s.result.value;
                                 && t == dest + [Name(t)]
                                 && Stem(Name(t)) == Stem(Name(path))
                                 && Suffix(Name(t)) == HtmlExt
                                 && s.disk.files == d.files[t := Converted(libs, p, d.files[path])])
  {
    if path in d.files {
      WriteFileEffect(d, path, dest, Converted(libs, p, d.files[path]), HtmlExt);
      if Name(path) != "" {
        HtmlTarget(path, dest);
      }
    }
  }

  /** Copying a second time changes nothing more and reports the same outcome. */
  lemma CopyTwiceSameAsOnce(d: Disk, path: Path, source: Path, dest: Path)
    ensures var s := CopyFile(d, path, source, dest);
            CopyFile(s.disk, path, source, dest) == s
  {
  }

  /** Writing the same content a second time changes nothing more and reports the same outcome. */
  lemma WriteTwiceSameAsOnce(d: Disk, path: Path, dest: Path, content: Contents, ext: string)
    ensures var s := WriteFile(d, path, dest, content, ext);
            WriteFile(s.disk, path, dest, content, ext) == s
  {
    var s := WriteFile(d, path, dest, content, ext);
    if s.result.Ok? {
      assert s.disk.files[s.result.value := content] == s.disk.files;
    }
  }

  /** A converting `parse` is a `read` followed by a `write` of the rendered text. */
  lemma ConvertIsReadThenWrite(d: Disk, p: Parser, path: Path, source: Path, dest: Path, libs: Renderers)
    requires p == Markdown || p == ReStructuredText
    ensures path !in d.files ==> ParseFile(d, p, path, source, dest, libs).disk == d
    ensures path in d.files ==>
              ParseFile(d, p, path, source, dest, libs)
                == WriteFile(d, path, dest, Converted(libs, p, d.files[path]), HtmlExt)
  {
  }

  /** The ".html" output of a source with another suffix is never the source itself. */
  lemma HtmlTargetIsNotSource(path: Path, dest: Path)
    requires Suffix(Name(path)) != HtmlExt
    requires WriteTarget(path, dest, HtmlExt).Ok?
    ensures WriteTarget(path, dest, HtmlExt).value != path
  {
    HtmlTarget(path, dest);
  }

  /**
    Converting a source whose suffix is not ".html" a second time changes
    nothing more and reports the same outcome: its output is never its own input.
  */
  lemma ConvertTwiceSameAsOnce(d: Disk, p: Parser, path: Path, source: Path, dest: Path, libs: Renderers)
    requires p == Markdown || p == ReStructuredText
    requires Suffix(Name(path)) != HtmlExt
    ensures var s := ParseFile(d, p, path, source, dest, libs);
            ParseFile(s.disk, p, path, source, dest, libs) == s
  {
    ConvertIsReadThenWrite(d, p, path, source, dest, libs);
    if path in d.files {
      var html := Converted(libs, p, d.files[path]);
      var s := WriteFile(d, path, dest, html, HtmlExt);
      WriteFileEffect(d, path, dest, html, HtmlExt);
      if s.result.Ok? {
        HtmlTargetIsNotSource(path, dest);
      }
      assert path in s.disk.files && s.disk.files[path] == d.files[path];
      ConvertIsReadThenWrite(s.disk, p, path, source, dest, libs);
      WriteTwiceSameAsOnce(d, path, dest, html, HtmlExt);
    }
  }

  /**
    Parsing a file that the variant accepts a second time changes nothing
    more and reports the same outcome.
  */
  lemma ParseTwiceSameAsOnce(d: Disk, p: Parser, path: Path, source: Path, dest: Path, libs: Renderers)
    requires ValidExtension(p, Suffix(Name(path)))
    ensures var s := ParseFile(d, p, path, source, dest, libs);
            ParseFile(s.disk, p, path, source, dest, libs) == s
  {
    if p == Resource {
      CopyTwiceSameAsOnce(d, path, source, dest);
    } else {
      ConvertTwiceSameAsOnce(d, p, path, source, dest, libs);
    }
  }
}
