/** Resolution of an attachment's stored path to a filesystem path, as the
    metadata extractor writes it into its `attachment_fullpath` column.
    Paths are Windows paths built by string formatting; nothing is
    normalised. */
module AttachmentPaths {
  import opened Wrappers
  import opened Strings
  import opened Config

  /** What Zotero writes before the file name of an attachment it stores
      itself. */
  const StorageMarker: string := "storage:"

  /** The directory holding the stored files of the attachment `key`:
      the data directory, the storage directory and the key, each followed
      by a backslash. The data directory already ends with one, so two
      backslashes meet there. */
  function StorageRoot(key: string): (r: string)
    ensures StartsWith(r, DataDir + "\\")
    ensures EndsWith(r, "\\" + key + "\\")
    ensures r[|r| - 1] == '\\'
  {
    var r := DataDir + "\\" + StorageDirName + "\\" + key + "\\";
    assert r[..|DataDir| + 1] == DataDir + "\\";
    assert r[|r| - |key| - 2..] == "\\" + key + "\\";
    r
  }

  /** `get_fullpath_from_zotero_path`: a path without the marker is a
      linked file and is kept as it is; a stored one becomes the storage
      directory of its key followed by the text after the first marker, up
      to the next marker if there is one (`path.split('storage:')[1]`). */
  function FullpathFromZoteroPath(path: string, key: string): (r: string)
    ensures !Occurs(path, StorageMarker) ==> r == path
    ensures Occurs(path, StorageMarker) ==>
      var i := Find(path, StorageMarker).value;
      var after := path[i + |StorageMarker|..];
      && StartsWith(r, StorageRoot(key))
      && var name := r[|StorageRoot(key)|..];
      && StartsWith(after, name) && !Occurs(name, StorageMarker)
      && (name == after || OccursAt(after, StorageMarker, |name|))
  {
    if Contains(path, StorageMarker) then
      var i := Find(path, StorageMarker).value;
      var after := path[i + |StorageMarker|..];
      assert Split(path, StorageMarker)[1] == Split(after, StorageMarker)[0];
      SplitHead(after, StorageMarker);
      var r := StorageRoot(key) + Split(after, StorageMarker)[0];
      assert r[|StorageRoot(key)|..] == Split(after, StorageMarker)[0];
      r
    else path
  }

  /** `get_fullpath`: the data directory passed as `prefix` is not used;
      the result is the resolution of the path alone. */
  function GetFullpath(path: string, prefix: string, key: string): (r: string)
    ensures r == FullpathFromZoteroPath(path, key)
  {
    FullpathFromZoteroPath(path, key)
  }

  /** The `prefix` argument of `get_fullpath` has no effect: any two data
      directories give the same full path, a linked file is returned as it
      is, and a stored file `storage:<name>` lands under the configured
      storage directory whatever directory the caller passed. */
  lemma GetFullpathIgnoresPrefix(path: string, prefix: string, other: string, key: string)
    ensures GetFullpath(path, prefix, key) == GetFullpath(path, other, key)
    ensures !Occurs(path, StorageMarker) ==> GetFullpath(path, prefix, key) == path
    ensures forall name :: path == StorageMarker + name && !Occurs(name, StorageMarker) ==>
      GetFullpath(path, prefix, key) == StorageRoot(key) + name
  {
    forall name | path == StorageMarker + name && !Occurs(name, StorageMarker)
      ensures GetFullpath(path, prefix, key) == StorageRoot(key) + name
    {
      StoredRoundTrip(name, key);
    }
  }

  /** The stored path a full path under the key's storage directory came
      from, if it is under it. */
  function ZoteroPathOf(fullpath: string, key: string): (r: Option<string>)
    ensures r.Some? <==> StartsWith(fullpath, StorageRoot(key))
    ensures r.Some? ==> StartsWith(r.value, StorageMarker)
  {
    if StartsWith(fullpath, StorageRoot(key)) then
      var r := StorageMarker + fullpath[|StorageRoot(key)|..];
      assert r[..|StorageMarker|] == StorageMarker;
      Some(r)
    else None
  }

  /** The marker does not overlap itself. */
  lemma MarkerNoBorder()
    ensures NoBorder(StorageMarker)
  {
    forall m | 0 < m < |StorageMarker|
      ensures StorageMarker[..m] != StorageMarker[|StorageMarker| - m..]
    {
      assert StorageMarker[..m][0] == 's';
      assert StorageMarker[|StorageMarker| - m..][0] == StorageMarker[|StorageMarker| - m];
    }
  }

  /** A stored attachment `storage:<name>` resolves to its file under the
      key's storage directory, and that full path gives the stored path
      back. */
  lemma StoredRoundTrip(name: string, key: string)
    requires !Occurs(name, StorageMarker)
    ensures FullpathFromZoteroPath(StorageMarker + name, key) == StorageRoot(key) + name
    ensures ZoteroPathOf(StorageRoot(key) + name, key) == Some(StorageMarker + name)
  {
    MarkerNoBorder();
    FindAfterFree("", StorageMarker, name);
    assert "" + StorageMarker + name == StorageMarker + name;
    assert (StorageMarker + name)[|StorageMarker|..] == name;
    var full := StorageRoot(key) + name;
    assert full[..|StorageRoot(key)|] == StorageRoot(key);
    assert full[|StorageRoot(key)|..] == name;
  }

  /** A key without colons gives a storage directory in which the marker
      cannot occur: its only colon is the drive's, too early to end one. */
  lemma RootHasNoMarker(key: string)
    requires Lacks(key, ':')
    ensures !Occurs(StorageRoot(key), StorageMarker)
  {
    var root := StorageRoot(key);
    RootTailLacksColon(key);
    forall j: nat
      ensures !OccursAt(root, StorageMarker, j)
    {
      if j + |StorageMarker| <= |root| {
        assert root[j..j + |StorageMarker|][7] == root[2..][j + 5];
      }
    }
  }

  /** After the drive letter and its colon, a storage directory of a key
      without colons has no colon. */
  lemma RootTailLacksColon(key: string)
    requires Lacks(key, ':')
    ensures Lacks(StorageRoot(key)[2..], ':')
  {
    var head := DataDir[2..] + "\\" + StorageDirName + "\\";
    HeadLacksColon();
    RootTail(key);
    LacksConcat(head, key, ':');
    LacksConcat(head + key, "\\", ':');
  }

  /** The fixed part of a storage directory after the drive has no colon. */
  lemma HeadLacksColon()
    ensures Lacks(DataDir[2..] + "\\" + StorageDirName + "\\", ':')
  {
  }

  /** A storage directory after the drive is the fixed part, the key and a
      backslash. */
  lemma RootTail(key: string)
    ensures StorageRoot(key)[2..] == DataDir[2..] + "\\" + StorageDirName + "\\" + key + "\\"
  {
  }

  /** A storage directory followed by a name free of the marker holds no
      marker: the directory ends with a backslash, which the marker does not
      contain, so no occurrence can straddle the two. */
  lemma ResolvedHasNoMarker(key: string, name: string)
    requires Lacks(key, ':') && !Occurs(name, StorageMarker)
    ensures !Occurs(StorageRoot(key) + name, StorageMarker)
  {
    var root := StorageRoot(key);
    var s := root + name;
    RootHasNoMarker(key);
    forall j: nat
      ensures !OccursAt(s, StorageMarker, j)
    {
      if j + |StorageMarker| <= |root| {
        assert s[j..j + |StorageMarker|] == root[j..j + |StorageMarker|];
        assert !OccursAt(root, StorageMarker, j);
      } else if j < |root| && j + |StorageMarker| <= |s| {
        assert s[j..j + |StorageMarker|][|root| - 1 - j] == root[|root| - 1] == '\\';
      } else if j + |StorageMarker| <= |s| {
        assert s[j..j + |StorageMarker|] == name[j - |root|..j - |root| + |StorageMarker|];
        assert !OccursAt(name, StorageMarker, j - |root|);
      }
    }
  }

  /** Resolving a resolved path changes nothing, for keys without colons
      (Zotero's keys are eight letters and digits). */
  lemma FullpathIdempotent(path: string, key: string)
    requires Lacks(key, ':')
    ensures var r := FullpathFromZoteroPath(path, key);
      FullpathFromZoteroPath(r, key) == r
  {
    var r := FullpathFromZoteroPath(path, key);
    if Occurs(path, StorageMarker) {
      var name := r[|StorageRoot(key)|..];
      assert r == StorageRoot(key) + name;
      ResolvedHasNoMarker(key, name);
    }
  }
}
