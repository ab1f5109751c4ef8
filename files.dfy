/**
  The methods of `Parser` that touch the file system, on an object that
  holds the files and directories and changes them in place.
*/
module Files {
  import opened Outcomes
  import opened Paths
  import opened Parsers
  import opened Effects

  class FileSystem {
    var files: map<Path, Contents>
    var dirs: set<Path>

    /** The disk as a value, for the specification functions of module Effects. */
    function State(): Disk
      reads this
    {
      Disk(files, dirs)
    }

    /** The object invariant: no path is both a file and a directory (kept by every method; see `ParseKeepsConsistent`). */
    ghost predicate Valid()
      reads this
    {
      Consistent(State())
    }

    constructor (disk: Disk)
      requires Consistent(disk)
      ensures Valid() && State() == disk
    {
      files := disk.files;
      dirs := disk.dirs;
    }

    /** `Parser.read`. */
    method Read(path: Path) returns (r: Result<Contents>)
      ensures r == ReadFile(State(), path)
    {
      if path in files {
        r := Ok(files[path]);
      } else if path in dirs {
        r := Err(IsADirectory);
      } else {
        r := Err(FileNotFound);
      }
    }

    /** Opening `target` for writing, truncating it, and writing `content`. */
    method Store(target: Path, content: Contents) returns (r: Result<Path>)
      requires Valid()
      modifies this
      ensures Valid()
      ensures Step(r, State()) == StoreFile(old(State()), target, content)
    {
      if target in dirs {
        return Err(IsADirectory);
      }
      if Parent(target) !in dirs {
        return Err(NoParentDirectory);
      }
      files := files[target := content];
      r := Ok(target);
    }

    /** `Parser.write`, with `ext` defaulting to ".html". */
    method Write(path: Path, dest: Path, content: Contents, ext: string := HtmlExt) returns (r: Result<Path>)
      requires Valid()
      modifies this
      ensures Valid()
      ensures Step(r, State()) == WriteFile(old(State()), path, dest, content, ext)
    {
      var target := WriteTarget(path, dest, ext);
      if target.Err? {
        return Err(target.error);
      }
      r := Store(target.value, content);
    }

    /** `Parser.copy`: `shutil.copy2(path, dest / path.relative_to(source))`. */
    method Copy(path: Path, source: Path, dest: Path) returns (r: Result<Path>)
      requires Valid()
      modifies this
      ensures Valid()
      ensures Step(r, State()) == CopyFile(old(State()), path, source, dest)
    {
      var target := CopyTarget(path, source, dest);
      if target.Err? {
        return Err(target.error);
      }
      var dst := target.value;
      if dst in dirs {
        dst := Join(dst, BaseName(path));
      }
      if path == dst && (path in files || path in dirs) {
        return Err(SameFile);
      }
      var data := Read(path);
      if data.Err? {
        return Err(data.error);
      }
      r := Store(dst, data.value);
    }

    /** `parse` of the variant `p`; the status line the converters print is not modelled. */
    method Parse(p: Parser, path: Path, source: Path, dest: Path, libs: Renderers) returns (r: Result<Path>)
      requires Valid()
      modifies this
      ensures Valid()
      ensures Step(r, State()) == ParseFile(old(State()), p, path, source, dest, libs)
    {
      match p
      case Base =>
        r := Err(NotImplemented);
      case Resource =>
        r := Copy(path, source, dest);
      case Markdown | ReStructuredText =>
        var text := Read(path);
        if text.Err? {
          return Err(text.error);
        }
        var content := libs.load(text.value);
        var html := if p == Markdown then libs.markdown(content.body) else libs.htmlBody(content.body);
        r := Write(path, dest, html);
    }
  }
}
