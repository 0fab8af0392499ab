/** The in-memory file system the script works on: the item directories under
    `<Zotero>/storage`, their entries, paths and file names, and the ways a run can end
    early. */
module Vault {
  import opened Text

  type Bytes = seq<bv8>

  datatype Option<T> = None | Some(value: T)

  datatype Result<T, E> = Ok(value: T) | Err(error: E)

  /** An entry of an item directory: a regular file with its bytes, or a sub-directory,
      which `stat()` still gives a size. */
  datatype Node = File(content: Bytes) | Folder(size: nat)

  datatype Entry = Entry(name: string, node: Node)

  /** One child of the storage directory: `str(child)` and what `child.iterdir()` yields,
      in that order. */
  datatype ItemDir = ItemDir(path: string, entries: seq<Entry>)

  /** A copy in the run's backup folder: `<sub-folder>/<file name>`. */
  datatype BackupKey = BackupKey(folder: string, name: string)

  /** The ways the script stops before finishing its loop: the two `sys.exit(1)` checks of
      `compress`, the `KeyError` of the quality table, `getsize` on a missing output file,
      the division by the size of an empty input when `compress` computes its ratio, and
      `open(..., 'w')` on a path that is a directory. */
  datatype Fault = InputNotAFile | InputNotPdf | UnknownPower(power: int) | NoToolOutput | EmptyInput | MarkerIsFolder

  /** `st_size` of an entry. */
  function Size(n: Node): nat
  {
    match n
    case File(content) => |content|
    case Folder(size) => size
  }

  /** The path separator of the host the script was written for (Windows). */
  const PathSep: char := '\\'

  /** `str(Path(dir, name))`. */
  function FilePath(dir: string, name: string): string
  {
    dir + [PathSep] + name
  }

  /** `s.split('.')[-1].lower() == 'pdf'`: the test both the scan and `compress` apply,
      the first to a file name, the second to a whole path. */
  predicate IsPdfName(s: string)
  {
    Lower(LastSegment(s, '.')) == "pdf"
  }

  predicate IsPdfLetters(t: string)
    requires |t| == 3
  {
    LowerChar(t[0]) == 'p' && LowerChar(t[1]) == 'd' && LowerChar(t[2]) == 'f'
  }

  /** What the extension test accepts: three letters spelling `pdf` in any case, which are
      either the whole string or follow its last dot. */
  lemma PdfNameShape(s: string)
    ensures IsPdfName(s) <==> |s| >= 3 && IsPdfLetters(s[|s| - 3..]) && (|s| == 3 || s[|s| - 4] == '.')
  {
    if IsPdfName(s) {
      PdfNameHasShape(s);
    }
    if |s| >= 3 && IsPdfLetters(s[|s| - 3..]) && (|s| == 3 || s[|s| - 4] == '.') {
      ShapeIsPdfName(s);
    }
  }

  lemma PdfNameHasShape(s: string)
    requires IsPdfName(s)
    ensures |s| >= 3 && IsPdfLetters(s[|s| - 3..]) && (|s| == 3 || s[|s| - 4] == '.')
  {
    var ext := LastSegment(s, '.');
    assert Lower(ext) == "pdf";
    assert |ext| == 3;
    assert ext == s[|s| - 3..];
    assert Lower(ext)[0] == 'p' && Lower(ext)[1] == 'd' && Lower(ext)[2] == 'f';
  }

  lemma ShapeIsPdfName(s: string)
    requires |s| >= 3 && IsPdfLetters(s[|s| - 3..]) && (|s| == 3 || s[|s| - 4] == '.')
    ensures IsPdfName(s)
  {
    var t := s[|s| - 3..];
    assert '.' !in t by {
      assert LowerChar(t[0]) == 'p' && LowerChar(t[1]) == 'd' && LowerChar(t[2]) == 'f';
    }
    LastSegmentOfShape(s);
    assert Lower(t) == "pdf" by {
      assert Lower(t)[0] == 'p' && Lower(t)[1] == 'd' && Lower(t)[2] == 'f';
    }
  }

  /** Three dot-free characters that are the whole string or follow a dot are its last
      dot-segment. */
  lemma LastSegmentOfShape(s: string)
    requires |s| >= 3 && '.' !in s[|s| - 3..] && (|s| == 3 || s[|s| - 4] == '.')
    ensures LastSegment(s, '.') == s[|s| - 3..]
  {
    if |s| == 3 {
      DotFreeIsOwnSegment(s);
    } else {
      var front := s[..|s| - 4];
      var head := s[..|s| - 3];
      var t := s[|s| - 3..];
      assert head == front + [s[|s| - 4]];
      assert s == head + t;
      LastSegmentAfterSep(front, t, '.');
    }
  }

  lemma DotFreeIsOwnSegment(t: string)
    requires '.' !in t
    ensures LastSegment(t, '.') == t
  {
    assert t == [] + t;
    LastSegmentCoversTail([], t, '.');
  }

  /** For a file name that has a dot, the path test of `compress` agrees with the name
      test of the scan. */
  lemma PathTestFollowsName(dir: string, name: string)
    requires '.' in name
    ensures IsPdfName(FilePath(dir, name)) == IsPdfName(name)
  {
    assert FilePath(dir, name) == (dir + [PathSep]) + name;
    LastSegmentOfSuffix(dir + [PathSep], name, '.');
  }

  /** For a file name without a dot, the last dot-segment of its path reaches back past
      the separator, so the path test of `compress` fails. */
  lemma DotlessNameFailsPathTest(dir: string, name: string)
    requires '.' !in name
    ensures !IsPdfName(FilePath(dir, name))
  {
    var t := [PathSep] + name;
    var p := FilePath(dir, name);
    assert p == dir + t;
    assert '.' !in t;
    LastSegmentCoversTail(dir, t, '.');
    var ext := LastSegment(p, '.');
    var k := |ext| - |t|;
    assert ext[k] == p[|p| - |t|] == PathSep;
    assert Lower(ext)[k] == PathSep;
  }

  /** The first entry with the given name, as a file system lookup by path finds it. */
  function IndexOf(es: seq<Entry>, name: string): (r: Option<nat>)
    ensures r.Some? ==> r.value < |es| && es[r.value].name == name
    ensures r.None? <==> forall j :: 0 <= j < |es| ==> es[j].name != name
  {
    if es == [] then None
    else if es[0].name == name then Some(0)
    else
      match IndexOf(es[1..], name)
      case None => None
      case Some(i) => Some(i + 1)
  }

  predicate HasEntry(es: seq<Entry>, name: string)
  {
    exists j :: 0 <= j < |es| && es[j].name == name
  }

  /** A directory never holds two entries of the same name. */
  ghost predicate UniqueNames(es: seq<Entry>)
  {
    forall i, j :: 0 <= i < j < |es| ==> es[i].name != es[j].name
  }

  /** No item directory lists a name twice. */
  ghost predicate AllUnique(v: seq<ItemDir>)
  {
    forall d :: 0 <= d < |v| ==> UniqueNames(v[d].entries)
  }

  /** `es'` keeps every entry of `es`, under the same name at the same position and of the
      same kind, and may hold new files after them: nothing is deleted or renamed, and no
      directory appears or disappears. */
  ghost predicate EntriesGrow(es: seq<Entry>, es': seq<Entry>)
  {
    && |es| <= |es'|
    && (forall j :: 0 <= j < |es| ==> es'[j].name == es[j].name && es'[j].node.Folder? == es[j].node.Folder?)
    && (forall j :: |es| <= j < |es'| ==> es'[j].node.File?)
  }

  /** A directory of this name is listed. */
  predicate FolderNamed(es: seq<Entry>, name: string)
  {
    exists j :: 0 <= j < |es| && es[j].name == name && es[j].node.Folder?
  }

  /** A directory of a grown listing was already there before it grew. */
  lemma FolderNamedBefore(es: seq<Entry>, es': seq<Entry>, name: string)
    requires EntriesGrow(es, es') && FolderNamed(es', name)
    ensures FolderNamed(es, name)
  {
    var j :| 0 <= j < |es'| && es'[j].name == name && es'[j].node.Folder?;
    assert j < |es| && es[j].name == name && es[j].node.Folder?;
  }

  /** The same directories at the same paths, each of whose entries grow. */
  ghost predicate DirsGrow(v: seq<ItemDir>, v': seq<ItemDir>)
  {
    |v| == |v'| &&
    forall d :: 0 <= d < |v| ==> v'[d].path == v[d].path && EntriesGrow(v[d].entries, v'[d].entries)
  }

  lemma DirsGrowTransitive(v: seq<ItemDir>, v': seq<ItemDir>, v'': seq<ItemDir>)
    requires DirsGrow(v, v') && DirsGrow(v', v'')
    ensures DirsGrow(v, v'')
  {
  }

  /** Replacing one directory's entries by grown, duplicate-free ones keeps every
      directory duplicate-free and lets the vault grow. */
  lemma ReplaceEntries(v: seq<ItemDir>, d: nat, es: seq<Entry>)
    requires d < |v| && AllUnique(v)
    requires EntriesGrow(v[d].entries, es) && UniqueNames(es)
    ensures AllUnique(v[d := ItemDir(v[d].path, es)])
    ensures DirsGrow(v, v[d := ItemDir(v[d].path, es)])
  {
  }

  /** An entry, once present, is still present after the directory grows. */
  lemma EntryPersists(es: seq<Entry>, es': seq<Entry>, name: string)
    requires EntriesGrow(es, es') && HasEntry(es, name)
    ensures HasEntry(es', name)
  {
    var j :| 0 <= j < |es| && es[j].name == name;
    assert es'[j].name == name;
  }

  /** `open(<dir>/<name>, 'w')` followed by a write (or `shutil.copyfile` to that path):
      an existing file of that name is truncated and refilled, a missing one is created
      after the existing entries, and a directory of that name makes the open fail. */
  function WriteFile(es: seq<Entry>, name: string, content: Bytes): Result<seq<Entry>, Fault>
  {
    match IndexOf(es, name)
    case None =>
      Ok(es + [Entry(name, File(content))])
    case Some(j) =>
      if es[j].node.Folder? then Err(MarkerIsFolder)
      else
        Ok(es[j := Entry(name, File(content))])
  }

  /** What the write leaves: a failure only for a directory of that name; otherwise the
      same names at the same positions, at most one new entry, a file of that name
      holding `content`, every other entry and every directory untouched. */
  lemma WriteFileEffect(es: seq<Entry>, name: string, content: Bytes)
    ensures var w := WriteFile(es, name, content);
      && (w.Err? ==> w.error == MarkerIsFolder && exists j :: 0 <= j < |es| && es[j] == Entry(name, es[j].node) && es[j].node.Folder?)
      && (w.Ok? ==> EntriesGrow(es, w.value) && |w.value| <= |es| + 1)
      && (w.Ok? ==> exists j :: 0 <= j < |w.value| && w.value[j] == Entry(name, File(content)))
      && (w.Ok? ==> forall j :: 0 <= j < |es| && es[j].name != name ==> w.value[j] == es[j])
      && (w.Ok? ==> forall j :: 0 <= j < |es| && es[j].node.Folder? ==> w.value[j] == es[j])
      && (w.Ok? && UniqueNames(es) ==> UniqueNames(w.value))
      && ((forall j :: 0 <= j < |es| ==> es[j].node.File?) ==> w.Ok?)
  {
    match IndexOf(es, name)
    case None =>
      assert WriteFile(es, name, content).value[|es|] == Entry(name, File(content));
    case Some(j) =>
      if es[j].node.File? {
        assert WriteFile(es, name, content).value[j] == Entry(name, File(content));
      }
  }
}
