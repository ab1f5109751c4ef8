/** The exceptions that the modelled code can raise, as values. */
module Outcomes {

  /** Why an operation fails; each constructor names the Python exception it stands for. */
  datatype Error =
    | NotImplemented     // NotImplementedError, raised by the base Parser.parse
    | InvalidSuffix      // ValueError from PurePath.with_suffix: the new suffix is not a valid one
    | EmptyName          // ValueError from PurePath.with_suffix on a path whose name is empty
    | NotRelative        // ValueError from PurePath.relative_to: the path is not under the base
    | SameFile           // shutil.SameFileError: source and destination are the same file
    | FileNotFound       // FileNotFoundError: the file to be read does not exist
    | IsADirectory       // IsADirectoryError: a directory was opened as a file
    | NoParentDirectory  // FileNotFoundError or NotADirectoryError: the target's directory is missing

  datatype Result<+T> = Ok(value: T) | Err(error: Error)
}
