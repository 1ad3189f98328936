/**
 * The part of the file system the log store touches: the directory of the log path and
 * the file at that path. PHP's file functions become methods on it; whether `mkdir`
 * manages to create the directory and whether the directory is writable are inputs.
 */
module FileSystem {
  import opened Wrappers

  class LogFile {
    /** `is_dir(dirname($path))` */
    var dirExists: bool
    /** `is_writable(dirname($path))` */
    var dirWritable: bool
    /** The file's bytes; None when the file does not exist */
    var content: Option<string>

    /** A file only exists inside an existing directory */
    ghost predicate Valid()
      reads this
    {
      content.Some? ==> dirExists
    }

    constructor (dirExists: bool, dirWritable: bool, content: Option<string>)
      requires content.Some? ==> dirExists
      ensures Valid()
      ensures this.dirExists == dirExists && this.dirWritable == dirWritable && this.content == content
    {
      this.dirExists := dirExists;
      this.dirWritable := dirWritable;
      this.content := content;
    }

    /** A write reaches the file exactly when its directory exists and is writable */
    predicate CanWrite()
      reads this
    {
      dirExists && dirWritable
    }

    /** The file's text, empty for a file that does not exist */
    function Text(): string
      reads this
    {
      content.GetOr("")
    }

    /** `filesize($path)`, one byte per character */
    function Size(): nat
      reads this
    {
      |Text()|
    }

    /** `mkdir($dir, 0755, true)` then `is_dir($dir)`: `created` is whether the directory is there afterwards */
    method MakeDirectory(created: bool)
      requires Valid()
      modifies this`dirExists
      ensures Valid()
      ensures dirExists == (old(dirExists) || created)
    {
      dirExists := dirExists || created;
    }

    /** `file_put_contents($path, $s, FILE_APPEND)`: creates the file if needed and adds `s` at its end */
    method AppendContents(s: string) returns (ok: bool)
      requires Valid()
      modifies this`content
      ensures Valid()
      ensures ok == CanWrite()
      ensures content == if ok then Some(old(Text()) + s) else old(content)
    {
      ok := CanWrite();
      if ok {
        content := Some(Text() + s);
      }
    }

    /** `file_put_contents($path, $s)`: replaces the file's text by `s` */
    method PutContents(s: string) returns (ok: bool)
      requires Valid()
      modifies this`content
      ensures Valid()
      ensures ok == CanWrite()
      ensures content == if ok then Some(s) else old(content)
    {
      ok := CanWrite();
      if ok {
        content := Some(s);
      }
    }

    /** `unlink($path)`: fails (PHP warns and returns false) when there is no file to remove */
    method Unlink() returns (ok: bool)
      requires Valid()
      modifies this`content
      ensures Valid()
      ensures ok == (old(content).Some? && CanWrite())
      ensures content == if ok then None else old(content)
    {
      ok := content.Some? && CanWrite();
      if ok {
        content := None;
      }
    }
  }
}
