/**
  The output folder of save_samples.py and the two operations that change it:
  `download` (content-addressed, write-once files named after the SHA-256 of
  their bytes) and `cleanup_empty_folder` (removes a folder this run created
  when it is still empty). `ensure_dir` and the count of existing `*.jpg`
  files are here too.

  The folder is a value `FolderState` for the specification and an object
  `Folder` whose methods change it in place, as the program's file system
  calls do.
*/
module Folders {
  import opened Wrappers

  type Byte = bv8
  type Bytes = seq<Byte>

  /** A character of `hashlib.sha256(...).hexdigest()`. */
  predicate IsHexDigit(c: char) {
    '0' <= c <= '9' || 'a' <= c <= 'f'
  }

  /** A SHA-256 hex digest: 64 lower-case hexadecimal characters. The hash
      function itself is a parameter of the operations below. */
  type Digest = s: string | |s| == 64 && forall i | 0 <= i < |s| :: IsHexDigit(s[i])
    witness seq(64, _ => '0')

  /** Length of the digest prefix that names a file. */
  const NameDigits := 16

  /** The extension every downloaded file gets. */
  const Extension: string := ".jpg"

  /** Names that `glob("*.jpg")` matches. */
  predicate IsJpg(name: string) {
    |name| >= |Extension| && name[|name| - |Extension|..] == Extension
  }

  /** The file name `download` writes: the first 16 hex digits of the digest of
      the bytes, then `.jpg`. */
  function FileName(digest: Bytes -> Digest, content: Bytes): (name: string)
    ensures |name| == NameDigits + |Extension| && IsJpg(name)
    ensures forall i | 0 <= i < NameDigits :: IsHexDigit(name[i])
  {
    digest(content)[..NameDigits] + Extension
  }

  /** Identical bytes get the same name whatever URL they came from; bytes with
      different names are bytes whose digests differ in the first 16 digits. */
  lemma {:induction false} FileNameByContent(digest: Bytes -> Digest, a: Bytes, b: Bytes)
    ensures a == b ==> FileName(digest, a) == FileName(digest, b)
    ensures FileName(digest, a) == FileName(digest, b) <==> digest(a)[..NameDigits] == digest(b)[..NameDigits]
  {
    var na, nb := FileName(digest, a), FileName(digest, b);
    if na == nb {
      assert digest(a)[..NameDigits] == na[..NameDigits] == nb[..NameDigits] == digest(b)[..NameDigits];
    }
  }

  /** What a path names: whether it exists, whether it is a directory, and the
      entries of the directory (name to bytes). */
  datatype FolderState = FolderState(present: bool, isDir: bool, entries: map<string, Bytes>) {

    /** A directory files can be written into. */
    predicate IsDirectory() {
      present && isDir
    }
  }

  /** The state of a removed folder. */
  const Removed := FolderState(false, false, map[])

  /** Writes `content` under `name` unless that name is taken (`if not fp.exists()`). */
  function WriteOnce(entries: map<string, Bytes>, name: string, content: Bytes): (r: map<string, Bytes>)
    ensures r.Keys == entries.Keys + {name}
    ensures forall k | k in entries :: r[k] == entries[k]
    ensures name !in entries ==> r[name] == content
  {
    if name in entries then entries else entries[name := content]
  }

  /** `download(url, outdir)` once the request has (or has not) produced bytes:
      `None` when the request failed or the file could not be written; otherwise
      the name of the file and the new state of the folder. */
  function Downloaded(fs: FolderState, digest: Bytes -> Digest, fetched: Option<Bytes>): (r: Option<(string, FolderState)>)
    ensures r.Some? <==> fetched.Some? && fs.IsDirectory()
    ensures r.Some? ==> && r.value.0 == FileName(digest, fetched.value)
                        && r.value.1.IsDirectory()
                        && r.value.1.entries.Keys == fs.entries.Keys + {r.value.0}
                        && forall k | k in fs.entries :: r.value.1.entries[k] == fs.entries[k]
  {
    match fetched
    case None => None
    case Some(content) =>
      if !fs.IsDirectory() then None
      else
        var name := FileName(digest, content);
        Some((name, fs.(entries := WriteOnce(fs.entries, name, content))))
  }

  /** A successful download leaves the folder holding the content-named file;
      a name already present is left untouched (no overwrite) and otherwise
      exactly that name is added with the bytes. */
  lemma DownloadSpec(fs: FolderState, digest: Bytes -> Digest, content: Bytes)
    requires fs.IsDirectory()
    ensures var r := Downloaded(fs, digest, Some(content)); var name := FileName(digest, content);
      && r.Some? && r.value.0 == name
      && r.value.1.IsDirectory()
      && name in r.value.1.entries
      && (name in fs.entries ==> r.value.1 == fs)
      && (name !in fs.entries ==> r.value.1.entries == fs.entries[name := content])
  {
  }

  /** Downloading the same bytes again, from any URL, changes nothing: the
      folder after two downloads of identical content is the folder after one. */
  lemma {:induction false} DownloadTwiceIsOnce(fs: FolderState, digest: Bytes -> Digest, a: Bytes, b: Bytes)
    requires fs.IsDirectory() && a == b
    ensures var once := Downloaded(fs, digest, Some(a));
      once.Some? && Downloaded(once.value.1, digest, Some(b)) == once
  {
    var name := FileName(digest, a);
    var m := WriteOnce(fs.entries, name, a);
    assert WriteOnce(m, name, b) == m;
  }

  /** The names `glob("*.jpg")` finds in a folder. */
  function JpgNames(entries: map<string, Bytes>): set<string> {
    set name | name in entries && IsJpg(name)
  }

  /** `len(list(out.glob("*.jpg")))`. */
  function JpgCount(entries: map<string, Bytes>): (r: nat)
    ensures r == 0 <==> forall name | name in entries :: !IsJpg(name)
  {
    var names := JpgNames(entries);
    assert names == {} <==> forall name | name in entries :: !IsJpg(name) by {
      if name :| name in entries && IsJpg(name) {
        assert name in names;
      }
    }
    |names|
  }

  /** A download adds one to the count of `.jpg` files exactly when its name is
      new; a duplicate adds nothing. */
  lemma {:induction false} JpgCountAfterDownload(fs: FolderState, digest: Bytes -> Digest, content: Bytes)
    requires fs.IsDirectory()
    ensures var r := Downloaded(fs, digest, Some(content)); var name := FileName(digest, content);
      r.Some? && JpgCount(r.value.1.entries) == JpgCount(fs.entries) + (if name in fs.entries then 0 else 1)
  {
    var name := FileName(digest, content);
    var after := Downloaded(fs, digest, Some(content)).value.1.entries;
    if name !in fs.entries {
      assert JpgNames(after) == JpgNames(fs.entries) + {name};
      assert name !in JpgNames(fs.entries);
    } else {
      assert after == fs.entries;
    }
  }

  /** `ensure_dir(out)` (`mkdir(parents=True, exist_ok=True)`): `None` when the path
      exists and is not a directory, where mkdir raises; otherwise the folder,
      created empty if it was missing. */
  function Ensured(fs: FolderState): (r: Option<FolderState>)
    ensures r.Some? <==> !fs.present || fs.isDir
    ensures r.Some? ==> r.value.IsDirectory()
    ensures r.Some? && fs.present ==> r.value == fs
    ensures r.Some? && !fs.present ==> r.value.entries == map[]
  {
    if !fs.present then Some(FolderState(true, true, map[]))
    else if fs.isDir then Some(fs)
    else None
  }

  /** `cleanup_empty_folder(folder, was_newly_created)`: the new state and
      whether the folder was removed. */
  function Cleaned(fs: FolderState, wasNewlyCreated: bool): (r: (FolderState, bool))
    ensures r.1 ==> wasNewlyCreated && fs.IsDirectory() && !r.0.present && r.0.entries == map[]
    ensures !r.1 ==> r.0 == fs
  {
    if !wasNewlyCreated then (fs, false)
    else if fs.present && fs.isDir then
      if |fs.entries| == 0 then (Removed, true) else (fs, false)
    else (fs, false)
  }

  /** The folder is removed, and true returned, exactly when this run created it
      and it is an existing, empty directory; in every other case nothing changes.
      So a folder that existed before the run, or that holds any entry, stays. */
  lemma CleanedRemovesOnlyNewEmpty(fs: FolderState, wasNewlyCreated: bool)
    ensures var (after, removed) := Cleaned(fs, wasNewlyCreated);
      && (removed <==> wasNewlyCreated && fs.IsDirectory() && fs.entries == map[])
      && (removed ==> !after.present)
      && (!removed ==> after == fs)
  {
    if fs.entries == map[] {
      assert |fs.entries| == 0;
    } else {
      var k :| k in fs.entries;
      assert |fs.entries| != 0;
    }
  }

  /** The folder at the output path, changed in place by the program. */
  class Folder {
    var present: bool
    var isDir: bool
    var entries: map<string, Bytes>

    function State(): FolderState
      reads this
    {
      FolderState(present, isDir, entries)
    }

    constructor (initial: FolderState)
      ensures State() == initial
    {
      present, isDir, entries := initial.present, initial.isDir, initial.entries;
    }

    /** `out.exists()`. */
    method Exists() returns (b: bool)
      ensures b == present
    {
      b := present;
    }

    /** `ensure_dir(out)`; `ok` is false where mkdir would raise. */
    method EnsureDir() returns (ok: bool)
      modifies this
      ensures ok == Ensured(old(State())).Some?
      ensures State() == Ensured(old(State())).GetOr(old(State()))
    {
      if !present {
        present, isDir, entries := true, true, map[];
        ok := true;
      } else {
        ok := isDir;
      }
    }

    /** `download(url, out)` given what the request for `url` returned: the file
      name on success, `None` where the source raises. */
    method Download(digest: Bytes -> Digest, fetched: Option<Bytes>) returns (name: Option<string>)
      modifies this
      ensures var r := Downloaded(old(State()), digest, fetched);
        && name == (if r.Some? then Some(r.value.0) else None)
        && State() == (if r.Some? then r.value.1 else old(State()))
    {
      if fetched.None? || !(present && isDir) {
        name := None;
      } else {
        var fp := FileName(digest, fetched.value);
        if fp !in entries {
          entries := entries[fp := fetched.value];
        }
        name := Some(fp);
      }
    }

    /** `cleanup_empty_folder(out, was_newly_created)`. */
    method CleanupEmpty(wasNewlyCreated: bool) returns (removed: bool)
      modifies this
      ensures (State(), removed) == Cleaned(old(State()), wasNewlyCreated)
    {
      if !wasNewlyCreated {
        return false;
      }
      if present && isDir {
        if |entries| == 0 {
          present, isDir, entries := false, false, map[];
          return true;
        }
      }
      return false;
    }
  }
}
