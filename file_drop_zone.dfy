/** The drop zone: the list of chosen files built from a drop or from the
    file input, removal from it, and the send and clear buttons. */
module FileDropZone {
  import opened JsValue
  import opened PathText
  import FileSelector

  /** A `File` as the browser hands it over: Electron adds `path`, which
      is missing elsewhere. */
  datatype DroppedFile = DroppedFile(path: Option<string>, name: string)

  /** An entry of the drop zone's list. */
  datatype Entry = Entry(path: string, name: string)

  /** `files.map(f => f.path).filter(Boolean)`: the non-empty paths, in
      order. */
  function DroppedPaths(files: seq<DroppedFile>): (r: seq<string>)
    ensures |r| <= |files|
    ensures forall p :: p in r <==> p != "" && exists f | f in files :: f.path == Some(p)
  {
    if files == [] then []
    else
      var rest := DroppedPaths(files[1..]);
      assert forall f | f in files :: f == files[0] || f in files[1..];
      if files[0].path.Some? && files[0].path.value != "" then [files[0].path.value] + rest else rest
  }

  /** `file.path || file.name`. */
  function PathOrName(f: DroppedFile): (p: string)
    ensures f.path.Some? && f.path.value != "" ==> p == f.path.value
    ensures !(f.path.Some? && f.path.value != "") ==> p == f.name
  {
    if f.path.Some? && f.path.value != "" then f.path.value else f.name
  }

  /** `files.map(f => f.path || f.name).filter(Boolean)`. */
  function InputPaths(files: seq<DroppedFile>): (r: seq<string>)
    ensures |r| <= |files|
    ensures forall p :: p in r <==> p != "" && exists f | f in files :: PathOrName(f) == p
  {
    if files == [] then []
    else
      var rest := InputPaths(files[1..]);
      assert forall f | f in files :: f == files[0] || f in files[1..];
      var p := PathOrName(files[0]);
      if p != "" then [p] + rest else rest
  }

  /** Both lists keep the files' order and multiplicity: a list of files is
      mapped file by file, each file giving its non-empty path (or, for the
      file input, `path || name`) or nothing, and the results are joined in
      order. */
  lemma {:induction false} DroppedPathsConcat(a: seq<DroppedFile>, b: seq<DroppedFile>)
    ensures DroppedPaths(a + b) == DroppedPaths(a) + DroppedPaths(b)
  {
    if a == [] {
      assert a + b == b;
    } else {
      assert (a + b)[0] == a[0];
      assert (a + b)[1..] == a[1..] + b;
      DroppedPathsConcat(a[1..], b);
    }
  }

  lemma {:induction false} InputPathsConcat(a: seq<DroppedFile>, b: seq<DroppedFile>)
    ensures InputPaths(a + b) == InputPaths(a) + InputPaths(b)
  {
    if a == [] {
      assert a + b == b;
    } else {
      assert (a + b)[0] == a[0];
      assert (a + b)[1..] == a[1..] + b;
      InputPathsConcat(a[1..], b);
    }
  }

  lemma PathsOne(f: DroppedFile)
    ensures DroppedPaths([f]) == if f.path.Some? && f.path.value != "" then [f.path.value] else []
    ensures InputPaths([f]) == if PathOrName(f) != "" then [PathOrName(f)] else []
  {
    assert [f][1..] == [];
  }

  /** When every file has a non-empty path, the file input takes the same
      paths as a drop; a file without a path still shows up under its
      name. */
  lemma {:induction false} InputPathsFallBack(files: seq<DroppedFile>)
    ensures (forall i | 0 <= i < |files| :: files[i].path.Some? && files[i].path.value != "") ==>
      InputPaths(files) == DroppedPaths(files)
    ensures forall i | 0 <= i < |files| && files[i].path.None? && files[i].name != "" :: files[i].name in InputPaths(files)
  {
    if files != [] {
      InputPathsFallBack(files[1..]);
      assert forall i | 0 < i < |files| :: files[i] == files[1..][i - 1];
    }
  }

  /** `path.split('\\').pop().split('/').pop()`. */
  function DisplayName(path: string): string {
    AfterLast(AfterLast(path, {'\\'}), {'/'})
  }

  /** The drop zone shows the same name for a path as the file selector. */
  lemma DisplayNameIsFormatFileName(path: string)
    ensures DisplayName(path) == FileSelector.FormatFileName(path)
  {
    AfterLastTwice(path, {'\\'}, {'/'}, {'/', '\\'});
  }

  /** The entries for a list of paths, in the same order. */
  function Entries(paths: seq<string>): (r: seq<Entry>)
    ensures |r| == |paths|
    ensures forall i | 0 <= i < |paths| :: r[i].path == paths[i] && r[i].name == FileSelector.FormatFileName(paths[i])
  {
    forall i | 0 <= i < |paths| ensures DisplayName(paths[i]) == FileSelector.FormatFileName(paths[i]) {
      DisplayNameIsFormatFileName(paths[i]);
    }
    seq(|paths|, i requires 0 <= i < |paths| => Entry(paths[i], DisplayName(paths[i])))
  }

  /** The paths of the entries, `selectedFiles.map(file => file.path)`. */
  function PathsOf(entries: seq<Entry>): (r: seq<string>)
    ensures |r| == |entries|
    ensures forall i | 0 <= i < |entries| :: r[i] == entries[i].path
  {
    seq(|entries|, i requires 0 <= i < |entries| => entries[i].path)
  }

  /** The paths sent are the paths chosen. */
  lemma PathsOfEntries(paths: seq<string>)
    ensures PathsOf(Entries(paths)) == paths
  {
  }

  /** `s.filter((_, i) => i !== index)`, walking the list with the index of
      its first element. */
  function RemoveAt<T>(s: seq<T>, index: int): (r: seq<T>)
    ensures |r| <= |s|
    decreases |s|
  {
    if s == [] then []
    else (if index == 0 then [] else [s[0]]) + RemoveAt(s[1..], index - 1)
  }

  /** `removeFile(i)` drops exactly the entry at `i` and keeps the others in
      order; an index outside the list changes nothing. */
  lemma {:induction false} RemoveAtExact<T>(s: seq<T>, index: int)
    ensures 0 <= index < |s| ==> RemoveAt(s, index) == s[..index] + s[index + 1..]
    ensures !(0 <= index < |s|) ==> RemoveAt(s, index) == s
    decreases |s|
  {
    if s != [] {
      var tail := s[1..];
      var head := if index == 0 then [] else [s[0]];
      RemoveAtExact(tail, index - 1);
      assert RemoveAt(s, index) == head + RemoveAt(tail, index - 1);
      if index == 0 {
        assert RemoveAt(tail, index - 1) == tail;
        assert s[..0] + s[1..] == tail;
      } else if 0 < index < |s| {
        assert RemoveAt(tail, index - 1) == tail[..index - 1] + tail[index..];
        assert tail[..index - 1] == s[1..index];
        assert tail[index..] == s[index + 1..];
        assert [s[0]] + s[1..index] == s[..index];
      } else {
        assert RemoveAt(tail, index - 1) == tail;
        assert [s[0]] + tail == s;
      }
    }
  }

  /** The drop zone's own state. `sends` records each call of
      `onFileSend` it makes, with the paths and the peer. */
  class DropZoneView {
    var selectedFiles: seq<Entry>
    var selectedPeer: Option<Record>
    var sends: seq<(seq<string>, Record)>

    constructor ()
      ensures selectedFiles == [] && selectedPeer == None && sends == []
    {
      selectedFiles, selectedPeer, sends := [], None, [];
    }

    /** `handleDrop`: a drop of at least one file replaces the list with
        the files that have a path; an empty drop leaves it alone. */
    method HandleDrop(files: seq<DroppedFile>)
      modifies this`selectedFiles
      ensures files == [] ==> selectedFiles == old(selectedFiles)
      ensures files != [] ==> selectedFiles == Entries(DroppedPaths(files))
    {
      if |files| > 0 {
        selectedFiles := Entries(DroppedPaths(files));
      }
    }

    /** `handleFileInputChange`: as a drop, with the name standing in for
        a missing path. */
    method HandleFileInputChange(files: seq<DroppedFile>)
      modifies this`selectedFiles
      ensures files == [] ==> selectedFiles == old(selectedFiles)
      ensures files != [] ==> selectedFiles == Entries(InputPaths(files))
    {
      if |files| > 0 {
        selectedFiles := Entries(InputPaths(files));
      }
    }

    /** `removeFile(index)`. */
    method RemoveFile(index: int)
      modifies this`selectedFiles
      ensures 0 <= index < |old(selectedFiles)| ==>
        selectedFiles == old(selectedFiles)[..index] + old(selectedFiles)[index + 1..]
      ensures !(0 <= index < |old(selectedFiles)|) ==> selectedFiles == old(selectedFiles)
    {
      RemoveAtExact(selectedFiles, index);
      selectedFiles := RemoveAt(selectedFiles, index);
    }

    /** `clearFiles`. */
    method ClearFiles()
      modifies this`selectedFiles, this`selectedPeer
      ensures selectedFiles == [] && selectedPeer == None
    {
      selectedFiles, selectedPeer := [], None;
    }

    /** A click on a peer option selects it. */
    method SelectPeer(peer: Record)
      modifies this`selectedPeer
      ensures selectedPeer == Some(peer)
    {
      selectedPeer := Some(peer);
    }

    /** `handleSendFiles`: nothing without a peer or without files;
        otherwise send the paths to the peer and, unless `onFileSend`
        rejects, clear the files and the peer. */
    method HandleSendFiles(rejects: bool) returns (sent: bool)
      modifies this`selectedFiles, this`selectedPeer, this`sends
      ensures sent == (old(selectedPeer).Some? && old(selectedFiles) != [])
      ensures !sent ==> selectedFiles == old(selectedFiles) && selectedPeer == old(selectedPeer) && sends == old(sends)
      ensures sent ==> sends == old(sends) + [(PathsOf(old(selectedFiles)), old(selectedPeer).value)]
      ensures sent && !rejects ==> selectedFiles == [] && selectedPeer == None
      ensures sent && rejects ==> selectedFiles == old(selectedFiles) && selectedPeer == old(selectedPeer)
    {
      if selectedPeer.None? || |selectedFiles| == 0 {
        return false;
      }
      sends := sends + [(PathsOf(selectedFiles), selectedPeer.value)];
      sent := true;
      if !rejects {
        selectedFiles, selectedPeer := [], None;
      }
    }
  }
}
