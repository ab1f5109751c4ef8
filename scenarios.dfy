/** Concrete instances of the model on a small site. */
module Scenarios {
  import opened Outcomes
  import opened Paths
  import opened Parsers
  import opened Effects

  /** Upper-case extensions are not recognised. */
  lemma UpperCaseMarkdownRejected()
    ensures !ValidExtension(Markdown, ".MD")
    ensures ValidExtension(Markdown, ".md")
  {
  }

  /** The stem of "hello.md" is "hello". */
  lemma HelloStem()
    ensures Stem("hello.md") == "hello"
  {
    assert LastIndexOf("hello.md", '.') == 5;
  }

  /** `with_suffix(".html")` turns `site/posts/hello.md` into `site/posts/hello.html`. */
  lemma HelloWithSuffix()
    ensures WithSuffix(["site", "posts", "hello.md"], HtmlExt) == Ok(["site", "posts", "hello.html"])
  {
    HelloStem();
    assert "hello" + HtmlExt == "hello.html";
    var path: Path := ["site", "posts", "hello.md"];
    assert Name(path) == "hello.md";
    assert Parent(path) + ["hello.html"] == ["site", "posts", "hello.html"];
  }

  /** The `write` target of `site/posts/hello.md` is `out/hello.html`. */
  lemma HelloTarget()
    ensures WriteTarget(["site", "posts", "hello.md"], ["out"], HtmlExt) == Ok(["out", "hello.html"])
  {
    HelloWithSuffix();
    var q: Path := ["site", "posts", "hello.html"];
    assert Name(q) == "hello.html";
    var leaf: Path := ["hello.html"];
    assert Join(["out"], leaf) == ["out", "hello.html"];
  }

  /** A Markdown file in a sub-directory of the source is written directly under the destination. */
  lemma NestedMarkdownFlattened(libs: Renderers, text: Contents)
    ensures var d := Disk(map[["site", "posts", "hello.md"] := text], {["site"], ["site", "posts"], ["out"]});
            ParseFile(d, Markdown, ["site", "posts", "hello.md"], ["site"], ["out"], libs)
              == Step(Ok(["out", "hello.html"]),
                      d.(files := d.files[["out", "hello.html"] := libs.markdown(libs.load(text).body)]))
  {
    var path: Path := ["site", "posts", "hello.md"];
    var d := Disk(map[path := text], {["site"], ["site", "posts"], ["out"]});
    var out: Path := ["out", "hello.html"];
    var html := libs.markdown(libs.load(text).body);
    HelloTarget();
    ConvertIsReadThenWrite(d, Markdown, path, ["site"], ["out"], libs);
    WriteFileEffect(d, path, ["out"], html, HtmlExt);
    assert out !in d.dirs;
  }

  /** The `copy` target of `site/img/logo.png` from `site` into `out` is `out/img/logo.png`. */
  lemma LogoTarget()
    ensures CopyTarget(["site", "img", "logo.png"], ["site"], ["out"]) == Ok(["out", "img", "logo.png"])
  {
    var rel: Path := ["img", "logo.png"];
    assert ["site", "img", "logo.png"] == Join(["site"], rel);
    CopyTargetKeepsRelativePath(["site"], rel, ["out"]);
    assert ["out"] + rel == ["out", "img", "logo.png"];
  }

  /** A resource in a sub-directory keeps its relative path and its contents. */
  lemma NestedResourceCopied(libs: Renderers, bytes: Contents)
    ensures var d := Disk(map[["site", "img", "logo.png"] := bytes], {["site"], ["site", "img"], ["out"], ["out", "img"]});
            ParseFile(d, Resource, ["site", "img", "logo.png"], ["site"], ["out"], libs)
              == Step(Ok(["out", "img", "logo.png"]), d.(files := d.files[["out", "img", "logo.png"] := bytes]))
  {
    var path: Path := ["site", "img", "logo.png"];
    var d := Disk(map[path := bytes], {["site"], ["site", "img"], ["out"], ["out", "img"]});
    var out: Path := ["out", "img", "logo.png"];
    LogoTarget();
    assert out !in d.dirs;
    assert CopyDestination(d, out, path) == out;
    assert out != path;
    assert Parent(out) == ["out", "img"];
    assert CopyFile(d, path, ["site"], ["out"]) == StoreFile(d, out, bytes);
  }

  /** Copying a resource when its output directory is missing fails and writes nothing. */
  lemma ResourceWithoutOutputDirectory(libs: Renderers, bytes: Contents)
    ensures var d := Disk(map[["site", "img", "logo.png"] := bytes], {["site"], ["site", "img"], ["out"]});
            ParseFile(d, Resource, ["site", "img", "logo.png"], ["site"], ["out"], libs)
              == Step(Err(NoParentDirectory), d)
  {
    LogoTarget();
  }
}
