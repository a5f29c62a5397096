/**
 * The slice of the kernel's sysfs tree the daemon touches, as an abstract filesystem:
 * regular files with their text, directories, a symbolic-link resolution for
 * `os.path.realpath`, the results of `glob.glob`, and the paths whose reads or writes
 * fail. Only file contents change, and only through `Write`.
 */
module Sysfs {
  import opened Wrappers

  class Sysfs {
    /** Contents of the regular files, by canonical path. */
    var files: map<string, string>
    /** Existing directories, by canonical path. */
    const dirs: set<string>
    /** `os.path.realpath` for paths that are not already canonical. */
    const links: map<string, string>
    /** `glob.glob(pattern)` results, in the order glob returns them; unlisted patterns match nothing. */
    const globs: map<string, seq<string>>
    /** Canonical paths whose `open(p, 'r')` or read raises. */
    const unreadable: set<string>
    /** Canonical paths whose `open(p, 'w')` or write raises. */
    const unwritable: set<string>

    constructor (files: map<string, string>, dirs: set<string>, links: map<string, string>,
                 globs: map<string, seq<string>>, unreadable: set<string>, unwritable: set<string>)
      requires forall p :: p in links ==> links[p] !in links && p !in files && p !in dirs
      ensures LinksResolved()
      ensures this.files == files && this.dirs == dirs && this.links == links
      ensures this.globs == globs && this.unreadable == unreadable && this.unwritable == unwritable
    {
      this.files := files;
      this.dirs := dirs;
      this.links := links;
      this.globs := globs;
      this.unreadable := unreadable;
      this.unwritable := unwritable;
    }

    /** The link map is already fully resolved, as `os.path.realpath` resolves every link
        on the way: a link leads to a canonical path, never to another link, and no
        canonical file or directory is itself a link. */
    predicate LinksResolved()
      reads this
    {
      forall p :: p in links ==> links[p] !in links && p !in files && p !in dirs
    }

    /** `os.path.realpath(p)`. */
    function Realpath(p: string): string {
      if p in links then links[p] else p
    }

    /** Resolving a resolved path changes nothing, as for `os.path.realpath`. */
    lemma RealpathIdempotent(p: string)
      requires LinksResolved()
      ensures Realpath(Realpath(p)) == Realpath(p)
      ensures Realpath(p) in files || Realpath(p) in dirs ==> Realpath(p) !in links
    {
    }

    /** `os.path.exists(p)`: false for the empty path. */
    predicate Exists(p: string)
      reads this
    {
      p != "" && (Realpath(p) in files || Realpath(p) in dirs)
    }

    /** `os.path.isdir(p)`. */
    predicate IsDir(p: string) {
      p != "" && Realpath(p) in dirs
    }

    /** `glob.glob(pattern)`. */
    function Glob(pattern: string): seq<string> {
      if pattern in globs then globs[pattern] else []
    }

    /** Text of `open(p, 'r').read()`, or `None` when opening or reading raises. */
    function Read(p: string): (r: Option<string>)
      reads this
      ensures r.Some? <==> Exists(p) && Realpath(p) in files && Realpath(p) !in unreadable
    {
      var q := Realpath(p);
      if p != "" && q in files && q !in unreadable then Some(files[q]) else None
    }

    /** Whether `open(p, 'w').write(...)` succeeds: sysfs creates no files, so only an existing,
        writable attribute can be written. */
    predicate CanWrite(p: string)
      reads this
    {
      p != "" && Realpath(p) in files && Realpath(p) !in unwritable
    }

    /** `open(p, 'w').write(v)`: on success the attribute reads back as `v`; on failure
        nothing changes. */
    method Write(p: string, v: string) returns (ok: bool)
      modifies this`files
      ensures ok == old(CanWrite(p))
      ensures files == if ok then old(files)[Realpath(p) := v] else old(files)
      ensures old(LinksResolved()) ==> LinksResolved()
    {
      ok := CanWrite(p);
      if ok {
        files := files[Realpath(p) := v];
      }
    }
  }
}
