# Parsers of a static site generator, in Dafny

This project models `ssg/parsers.py` of a small static site generator. The
generator turns a source tree into an output tree. The model covers:

- The parser variants: the base `Parser` and its subclasses `ResourceParser`,
  `MarkdownParser` and `ReStructuredTextParser`.
- Which file extensions each variant accepts (`valid_extension`).
- Where `write` and `copy` put their output.
- What each `parse` does to the file system: it reads one file and writes
  exactly one file. The base `parse` raises `NotImplementedError` instead.

Layout:

- `outcomes.dfy` (module `Outcomes`): the Python exceptions the code can
  raise, as an `Error` datatype, and `Result`.
- `paths.dfy` (module `Paths`): POSIX paths as `pathlib.PurePosixPath` sees
  them. A path is the sequence of its parts; an absolute path starts with the
  part `"/"`. The module defines `name`, `parent`, `suffix`, `stem`,
  `with_suffix`, `relative_to` and the `/` operator, following the pathlib
  of CPython 3.8 to 3.13. For example, a suffix starts at the last dot of the name,
  and only when that dot is neither the first nor the last character.
- `parsers.dfy` (module `Parsers`): the closed
  datatype `Parser`, the `extensions` lists, `ValidExtension`, and the target
  paths of `write` and `copy`.
- `effects.dfy` (module `Effects`): the file system as a value, `Disk`. It
  holds file contents by path and the set of existing directories.
  `ReadFile`, `StoreFile`, `WriteFile`, `CopyFile` and `ParseFile` give the
  outcome of each call and the disk after it. Beside them are the lemmas
  about those effects.
- `files.dfy` (module `Files`): the class `FileSystem`. Its fields `files` and
  `dirs` are updated in place by the methods `Read`, `Store`, `Write`, `Copy`
  and `Parse`. Each method is proved to match the corresponding function of
  `Effects`.
- `scenarios.dfy` (module `Scenarios`): concrete instances of the model on a small site.

Code outside this file is passed in as parameters, through the datatype
`Renderers`: `Content.load` (from `ssg/content.py`, which is not part of
this model), `markdown.markdown`, and the `"html_body"` part of
docutils' `publish_parts`. These are arbitrary total functions, so every
property holds whatever they compute, provided they return.

`copy` keeps each file's relative directory under `dest`
(ssg/parsers.py:31). `write` does not: it targets
`dest / path.with_suffix(ext).name` (ssg/parsers.py:26), which drops the
source file's directories. So two Markdown or reStructuredText files with
the same stem in different directories are written to the same output file
(`WriteTargetIgnoresDirectory`, `NestedMarkdownFlattened`).

The model's operations also differ from the Python in two small ways:

- The Python methods return `None`. The modelled operations return `Ok(t)`,
  where `t` is the one path they wrote, or `Err(e)` for the exception they
  raise.
- `with_suffix` could yield the name `"."`, for example for the name `"..x"`
  with an empty suffix. Python versions disagree on this case. The model
  treats it as the `ValueError` that newer versions raise. `parse` never
  reaches this case, because it always passes `".html"`.

The code leaves it to its callers to make `dest` and its sub-directories
exist. The model does not require this: a missing directory is the
`NoParentDirectory` error. These `shutil.copy2` rules are included:

- If the target is an existing directory, the file is copied into it under
  its own name.
- Copying a file onto itself raises `SameFileError`.
- The source file is opened before the destination, so a missing source
  file is reported first.

## Model

| member | source | states |
|---|---|---|
| `Paths.Name` | ssg/parsers.py:26 | `name` is empty only for "." and "/"; otherwise it is the last part and a proper part |
| `Paths.Parent` | ssg/parsers.py:26 | the parent followed by the name gives back the path; a nameless path is its own parent |
| `Paths.LastIndexOf` | ssg/parsers.py:26 | `rfind`: the result holds `c`, and no later index does, or it is -1 and no index does |
| `Paths.Suffix` | ssg/parsers.py:26 | definition: the name from its last dot on, when that dot is neither the first nor the last character, and otherwise "" (`PurePath.suffix`) |
| `Paths.Stem` | ssg/parsers.py:26 | definition: the name up to its last dot under the same condition, and otherwise the whole name (`PurePath.stem`) |
| `Paths.StemAndSuffix` | ssg/parsers.py:26 | a name is its stem followed by its suffix; a non-empty suffix is one dot and no other; a non-empty name has a non-empty stem |
| `Paths.SplitOfStemWithSuffix` | ssg/parsers.py:26 | a non-empty stem with a single suffix appended has exactly that stem and that suffix |
| `Paths.WithSuffix` | ssg/parsers.py:26 | `with_suffix` keeps the parent and makes the name stem + suffix; it fails on an empty name, always succeeds for a single suffix on a non-empty name, and rejects a suffix not starting with "." |
| `Paths.Join` | ssg/parsers.py:26-31 | `/` returns an absolute right-hand side unchanged and otherwise appends its parts to the base |
| `Paths.RelativeTo` | ssg/parsers.py:31 | `relative_to` fails only with the ValueError `NotRelative` |
| `Paths.RelativeToJoin` | ssg/parsers.py:31 | what `relative_to` returns is relative and, joined back onto the base, gives the path |
| `Paths.JoinRelativeTo` | ssg/parsers.py:31 | the converse: a base joined with any relative path is relative to that base, giving that path back |
| `Parsers.Extensions` | ssg/parsers.py:13-54 | definition: the class attribute `extensions` of each variant (lines 13, 35, 42 and 54), none for the base class |
| `Parsers.ValidExtension` | ssg/parsers.py:15-16 | definition: exact, case-sensitive membership of the extension in the variant's list |
| `Parsers.BaseAcceptsNothing` | ssg/parsers.py:13-16 | the base `Parser` accepts no extension |
| `Parsers.ResourceExtensions` | ssg/parsers.py:35 | `ResourceParser` accepts exactly .jpg .png .gif .css .html |
| `Parsers.MarkdownExtensions` | ssg/parsers.py:42 | `MarkdownParser` accepts exactly .md and .markdown |
| `Parsers.ReStructuredTextExtensions` | ssg/parsers.py:54 | `ReStructuredTextParser` accepts exactly .rst |
| `Parsers.ExtensionsDisjoint` | ssg/parsers.py:35-54 | no extension is accepted by two different variants |
| `Parsers.UpperCaseRejected` | ssg/parsers.py:15-16 | the test is case-sensitive: an extension with an upper-case letter is accepted by no variant |
| `Parsers.AcceptedExtensionIsSuffix` | ssg/parsers.py:35-54 | every accepted extension is a single suffix, and it is the pathlib suffix of any non-empty stem followed by it |
| `Parsers.WriteTarget` | ssg/parsers.py:26 | the `write` target is `dest` plus one part, stem of the source name + `ext`, so source directories are dropped; it fails exactly when `with_suffix` fails, with the same error |
| `Parsers.HtmlTarget` | ssg/parsers.py:25-26 | with the default ".html" the target always exists for a named file, keeps the source stem, and has suffix ".html" |
| `Parsers.WriteTargetIgnoresDirectory` | ssg/parsers.py:26 | two sources with the same stem, in any directories, get the same `write` target |
| `Parsers.CopyTarget` | ssg/parsers.py:31 | the `copy` target exists exactly when `path` is relative to `source`, and otherwise the error is `NotRelative` |
| `Parsers.CopyTargetKeepsRelativePath` | ssg/parsers.py:31 | `source / rel` is copied to `dest / rel`, keeping its name and so its extension |
| `Parsers.CopyTargetUnderDest` | ssg/parsers.py:31 | every `copy` target is `dest` plus the relative path of the file under `source` |
| `Effects.ReadFile` | ssg/parsers.py:21-23 | `read` succeeds exactly on an existing file and returns its contents |
| `Effects.StoreFile` | ssg/parsers.py:27-28 | definition: opening the target for writing fails with IsADirectory on a directory and with NoParentDirectory when its directory is missing; otherwise the target holds `content` afterwards, created or truncated |
| `Effects.WriteFile` | ssg/parsers.py:25-28 | definition: the `WriteTarget` error with the disk unchanged, or `StoreFile` at the target |
| `Effects.BaseName` | ssg/parsers.py:31 | definition: `os.path.basename` of the copied file as a relative path, empty for a nameless path |
| `Effects.CopyDestination` | ssg/parsers.py:31 | definition: `shutil.copy2` copies into the destination under the source's base name when the destination is an existing directory, and to the destination itself otherwise |
| `Effects.CopyFile` | ssg/parsers.py:30-31 | definition: the `CopyTarget` error; else SameFileError when the `copy2` destination is the existing source; else the `ReadFile` error; else `StoreFile` of the source's contents at that destination; every error leaves the disk unchanged |
| `Effects.Converted` | ssg/parsers.py:45-58 | definition (lines 45-46 and 57-58): the loaded body of the text given to `markdown` for the Markdown variant, or to the `"html_body"` part of `publish_parts` for the reStructuredText variant |
| `Effects.ParseFile` | ssg/parsers.py:18-59 | definition: NotImplementedError for the base class; `CopyFile` for resources; for the converters the `ReadFile` error, or `WriteFile` of the converted text with ".html" |
| `Effects.WriteFileEffect` | ssg/parsers.py:25-28 | `write` succeeds exactly when the target exists, is not a directory and `dest` is a directory, whether or not the file exists (it overwrites); afterwards the target holds exactly `content`, nothing else changes, and a failure changes nothing |
| `Effects.CopyFileEffect` | ssg/parsers.py:30-31 | `copy` fails with `NotRelative` exactly when `path` is not under `source`; on success the source file existed, the destination is the `copy2` destination and not the source, it holds the source's contents, and nothing else changes; a failure changes nothing |
| `Effects.CopyKeepsRelativePath` | ssg/parsers.py:30-31 | copying `source / rel` when `dest / rel` is not a directory succeeds exactly when the file exists, is not `dest / rel`, and the directory of `dest / rel` exists, and then writes the same contents to `dest / rel` |
| `Effects.BaseParseFails` | ssg/parsers.py:18-19 | the base `parse` raises NotImplementedError and changes nothing |
| `Effects.ParseTouchesOneFile` | ssg/parsers.py:37-59 | every `parse` leaves directories alone, changes nothing when it fails, and otherwise changes only the one file it reports |
| `Effects.ParseKeepsConsistent` | ssg/parsers.py:37-59 | `parse` never makes a path both a file and a directory |
| `Effects.ConvertedOutput` | ssg/parsers.py:44-59 | Markdown and reST `parse` succeed exactly when the source file exists and the ".html" target can be written; the target keeps the stem, has suffix ".html", lies directly under `dest`, and holds the renderer's output for the loaded body |
| `Effects.WriteTwiceSameAsOnce` | ssg/parsers.py:25-28 | a second identical `write` changes nothing more and has the same outcome |
| `Effects.ConvertIsReadThenWrite` | ssg/parsers.py:44-59 | a converting `parse` changes nothing when the source is not a file, and is otherwise exactly a `write` of the rendered loaded body with ".html" |
| `Effects.HtmlTargetIsNotSource` | ssg/parsers.py:25-26 | the ".html" output of a source with another suffix is never the source itself |
| `Effects.CopyTwiceSameAsOnce` | ssg/parsers.py:30-31 | a second identical `copy` changes nothing more and has the same outcome |
| `Effects.ConvertTwiceSameAsOnce` | ssg/parsers.py:44-59 | converting a non-".html" source a second time changes nothing more and has the same outcome |
| `Effects.ParseTwiceSameAsOnce` | ssg/parsers.py:37-59 | parsing a file whose suffix the variant accepts a second time changes nothing more and has the same outcome |
| `Files.FileSystem.Read` | ssg/parsers.py:21-23 | `read` returns what `ReadFile` gives for the current files |
| `Files.FileSystem.Store` | ssg/parsers.py:27-28 | opening for writing and writing: the new state is exactly the `StoreFile` outcome |
| `Files.FileSystem.Write` | ssg/parsers.py:25-28 | the new state and outcome are exactly `WriteFile`'s, with `ext` defaulting to ".html" |
| `Files.FileSystem.Copy` | ssg/parsers.py:30-31 | the new state and outcome are exactly `CopyFile`'s |
| `Files.FileSystem.Parse` | ssg/parsers.py:18-59 | each variant's `parse`, built from `Read`, `Write` and `Copy` as in the source, has exactly the `ParseFile` outcome and state |
| `Scenarios.UpperCaseMarkdownRejected` | ssg/parsers.py:42 | ".MD" is rejected by `MarkdownParser`, ".md" accepted |
| `Scenarios.HelloTarget` | ssg/parsers.py:26 | the `write` target of `site/posts/hello.md` into `out` is `out/hello.html` |
| `Scenarios.LogoTarget` | ssg/parsers.py:31 | the `copy` target of `site/img/logo.png` from `site` into `out` is `out/img/logo.png` |
| `Scenarios.NestedMarkdownFlattened` | ssg/parsers.py:44-47 | `site/posts/hello.md` is converted into `out/hello.html` and nothing else changes |
| `Scenarios.NestedResourceCopied` | ssg/parsers.py:37-38 | `site/img/logo.png` is copied unchanged to `out/img/logo.png` |
| `Scenarios.ResourceWithoutOutputDirectory` | ssg/parsers.py:30-31 | copying into a missing output directory fails and writes nothing |

## Left out

- The status line the converters print, with its colour code (ssg/parsers.py:48-50, 60-62). It is output only.
- Text decoding and encoding in `read` and `write`: contents are one string type, so a decoding error is not modelled. Text mode also turns `\r\n` and `\r` into `\n` on reading; `ReadFile` returns the stored contents, so it matches `read` only for text already in that form.
- File permissions and other operating-system failures, for example a destination that is not writable.
- What `shutil.copy2` copies besides contents: modification times, permission bits, and the special-file checks.
- Symbolic links, hard links and paths that name the same file in two spellings: `SameFileError` is raised only when the two paths are equal.
- `Content.load`, `markdown` and `publish_parts`: they are parameters with no contract. `ssg/content.py` is not part of this model. Exceptions raised by these calls (for example docutils' `SystemMessage` on a severe reStructuredText error) are not modelled; `ConvertedOutput`'s success condition assumes they return.
- Pathlib releases after 3.13 may count a trailing dot as a suffix. The model follows 3.8 to 3.13, where `file.` has no suffix and becomes `file..html`.
- Windows paths (drives, `\` separators, case-insensitive comparison in `relative_to`): paths are POSIX.
- The directory walker that chooses a parser for each file is not part of this model. `ExtensionsDisjoint` shows that the order in which variants are tried does not matter.
