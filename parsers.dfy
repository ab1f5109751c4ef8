/**
  The parser variants of ssg/parsers.py, the extensions each one claims, and
  the output paths that `Parser.write` and `Parser.copy` compute.
*/
module Parsers {
  import opened Outcomes
  import opened Paths

  /** The base class and its three subclasses, as a closed set of variants. */
  datatype Parser = Base | Resource | Markdown | ReStructuredText

  /** The class attribute `extensions` of each variant; no variant changes it. */
  function Extensions(p: Parser): seq<string> {
    match p
    case Base => []
    case Resource => [".jpg", ".png", ".gif", ".css", ".html"]
    case Markdown => [".md", ".markdown"]
    case ReStructuredText => [".rst"]
  }

  /** `Parser.valid_extension`: exact, case-sensitive membership in the variant's list. */
  predicate ValidExtension(p: Parser, extension: string) {
    extension in Extensions(p)
  }

  /** The default `ext` of `Parser.write`. */
  const HtmlExt: string := ".html"

  /** The base class lists no extension, so it accepts none. */
  lemma BaseAcceptsNothing(extension: string)
    ensures !ValidExtension(Base, extension)
  {
  }

  /** `ResourceParser` accepts exactly five extensions. */
  lemma ResourceExtensions(extension: string)
    ensures ValidExtension(Resource, extension) <==> extension in {".jpg", ".png", ".gif", ".css", ".html"}
  {
  }

  /** `MarkdownParser` accepts exactly ".md" and ".markdown". */
  lemma MarkdownExtensions(extension: string)
    ensures ValidExtension(Markdown, extension) <==> extension == ".md" || extension == ".markdown"
  {
  }

  /** `ReStructuredTextParser` accepts exactly ".rst". */
  lemma ReStructuredTextExtensions(extension: string)
    ensures ValidExtension(ReStructuredText, extension) <==> extension == ".rst"
  {
  }

  /** No extension is claimed by two variants, so the order in which they are tried does not matter. */
  lemma ExtensionsDisjoint(p: Parser, q: Parser, extension: string)
    requires p != q
    ensures !(ValidExtension(p, extension) && ValidExtension(q, extension))
  {
  }

  predicate HasUpperCase(s: string) {
    exists i :: 0 <= i < |s| && 'A' <= s[i] <= 'Z'
  }

  /** Every listed extension is lower case, so the test rejects ".MD", ".Rst" and the like. */
  lemma UpperCaseRejected(p: Parser, extension: string)
    requires HasUpperCase(extension)
    ensures !ValidExtension(p, extension)
  {
  }

  /**
    Every listed extension is a suffix as pathlib reports one, so a file whose
    name is a non-empty stem followed by that extension has it as its suffix.
  */
  lemma AcceptedExtensionIsSuffix(p: Parser, stem: string, extension: string)
    requires ValidExtension(p, extension) && stem != ""
    ensures IsSingleSuffix(extension)
    ensures Suffix(stem + extension) == extension
  {
    assert IsSingleSuffix(extension);
    SplitOfStemWithSuffix(stem, extension);
  }

  /**
    The path `dest / path.with_suffix(ext).name` that `Parser.write` opens:
    one part under `dest`, so every directory of `path` is dropped.
  */
  function WriteTarget(path: Path, dest: Path, ext: string): (r: Result<Path>)
    ensures r.Ok? ==> && Name(path) != ""
                      && r.value == dest + [Name(r.value)]
                      && Name(r.value) == Stem(Name(path)) + ext
                      && Parent(r.value) == dest
    ensures r.Err? <==> WithSuffix(path, ext).Err?
    ensures r.Err? ==> r == WithSuffix(path, ext)
  {
    match WithSuffix(path, ext)
    case Err(e) => Err(e)
    case Ok(q) =>
      var leaf: Path := [Name(q)];
      Ok(Join(dest, leaf))
  }

  /**
    With the default extension the output is named after the source file's
    stem with the suffix ".html", whatever the source file's suffix was.
  */
  lemma HtmlTarget(path: Path, dest: Path)
    requires Name(path) != ""
    ensures WriteTarget(path, dest, HtmlExt).Ok?
    ensures Stem(Name(WriteTarget(path, dest, HtmlExt).value)) == Stem(Name(path))
    ensures Suffix(Name(WriteTarget(path, dest, HtmlExt).value)) == HtmlExt
  {
    assert IsSingleSuffix(HtmlExt);
    StemAndSuffix(Name(path));
    SplitOfStemWithSuffix(Stem(Name(path)), HtmlExt);
  }

  /**
    Two sources with the same stem, in any directories, are written to the
    same output file: the later `write` overwrites the earlier one.
  */
  lemma WriteTargetIgnoresDirectory(path1: Path, path2: Path, dest: Path, ext: string)
    requires Stem(Name(path1)) == Stem(Name(path2))
    ensures WriteTarget(path1, dest, ext) == WriteTarget(path2, dest, ext)
  {
  }

  /** The path `dest / path.relative_to(source)` that `Parser.copy` hands to `shutil.copy2`. */
  function CopyTarget(path: Path, source: Path, dest: Path): (r: Result<Path>)
    ensures r.Err? <==> RelativeTo(path, source).Err?
    ensures r.Err? ==> r.error == NotRelative
  {
    match RelativeTo(path, source)
    case Err(e) => Err(e)
    case Ok(rel) => Ok(Join(dest, rel))
  }

  /**
    A file at `source / rel` is copied to `dest / rel`: the relative
    directories, the name and so the extension are kept.
  */
  lemma CopyTargetKeepsRelativePath(source: Path, rel: Path, dest: Path)
    requires !IsAbsolute(rel)
    ensures CopyTarget(Join(source, rel), source, dest) == Ok(dest + rel)
    ensures rel != [] ==> Name(dest + rel) == Name(Join(source, rel)) == Name(rel)
  {
    JoinRelativeTo(source, rel);
  }

  /** Whatever `copy` targets lies under `dest` at the position the file has under `source`. */
  lemma CopyTargetUnderDest(path: Path, source: Path, dest: Path)
    requires CopyTarget(path, source, dest).Ok?
    ensures exists rel: Path :: !IsAbsolute(rel) && Join(source, rel) == path
                                 && CopyTarget(path, source, dest).value == dest + rel
  {
  }
}
