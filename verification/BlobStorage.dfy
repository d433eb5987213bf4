/** The private object store: exact-key writes and deletion of everything under a prefix. */
module BlobStorage {
  import opened Prelude
  import opened ImageApi

  /** Strictly below the prefix in the tree of path segments. */
  predicate IsUnder(key: Path, prefix: Path) {
    |prefix| < |key| && prefix <= key
  }

  ghost function Pruned<Blob>(objects: map<Path, Blob>, prefix: Path): map<Path, Blob> {
    map k | k in objects && !IsUnder(k, prefix) :: objects[k]
  }

  ghost function Deepest(keys: set<Path>): (depth: nat)
    ensures forall k | k in keys :: |k| <= depth
    ensures keys != {} ==> exists k | k in keys :: |k| == depth
  {
    if keys == {} then 0
    else
      var k :| k in keys;
      var rest := Deepest(keys - {k});
      assert forall k' | k' in keys :: k' == k || k' in keys - {k};
      if |k| < rest then
        var k' :| k' in keys - {k} && |k'| == rest;
        assert k' in keys;
        rest
      else |k|
  }

  lemma ShallowerSubset(keys: set<Path>, more: set<Path>)
    requires keys <= more && keys != {}
    ensures Deepest(keys) <= Deepest(more)
  {
    var k :| k in keys && |k| == Deepest(keys);
    assert k in more;
  }

  /** A key below the prefix is the child it passes through, or lies below that child. */
  lemma UnderChild(key: Path, prefix: Path)
    requires IsUnder(key, prefix)
    ensures var child := prefix + [key[|prefix|]];
            if |key| == |prefix| + 1 then key == child else IsUnder(key, child)
  {
    assert key[..|prefix| + 1] == prefix + [key[|prefix|]];
  }

  /** Part way through a deletion: what is left below the prefix passes through one of the names. */
  ghost predicate Clearing<Blob>(before: map<Path, Blob>, now: map<Path, Blob>, prefix: Path, names: set<string>) {
    && (forall k | k in now :: k in before && now[k] == before[k])
    && (forall k | k in before && k !in now :: IsUnder(k, prefix))
    && (forall k | k in now && IsUnder(k, prefix) :: |k| > |prefix| + 1 && k[|prefix|] in names)
  }

  lemma ClearingStep<Blob>(before: map<Path, Blob>, now: map<Path, Blob>, prefix: Path, names: set<string>,
      name: string)
    requires Clearing(before, now, prefix, names)
    ensures Clearing(before, Pruned(now, prefix + [name]), prefix, names - {name})
  {
    forall k | k in now && IsUnder(k, prefix) ensures k[|prefix|] == name ==> IsUnder(k, prefix + [name]) {
      UnderChild(k, prefix);
    }
  }

  class Storage<Blob> {
    var objects: map<Path, Blob>
    const fileOverwrite: bool

    constructor (fileOverwrite: bool)
      ensures objects == map[] && this.fileOverwrite == fileOverwrite
    {
      this.fileOverwrite := fileOverwrite;
      objects := map[];
    }

    method Delete(key: Path)
      modifies this
      ensures objects == old(objects) - {key}
    {
      objects := objects - {key};
    }

    /** A backend that does not overwrite stores a colliding object under another, unused name. */
    method Save(key: Path, blob: Blob) returns (stored: Path)
      modifies this
      ensures objects == old(objects)[stored := blob]
      ensures fileOverwrite || key !in old(objects) ==> stored == key
      ensures !fileOverwrite ==> stored !in old(objects)
    {
      stored := key;
      if !fileOverwrite {
        while stored in objects
          invariant key !in objects ==> stored == key
          decreases set k | k in objects && |k| >= |stored|
        {
          ghost var longer := set k | k in objects && |k| >= |stored| + 1;
          assert stored !in longer;
          assert stored in set k | k in objects && |k| >= |stored|;
          stored := stored + ["_"];
        }
      }
      objects := objects[stored := blob];
    }

    /** Whatever the backend, the object ends up at the exact key asked for. */
    method SaveStream(key: Path, blob: Blob)
      modifies this
      ensures objects == old(objects)[key := blob]
    {
      if !fileOverwrite && key in objects {
        Delete(key);
      }
      var stored := Save(key, blob);
    }

    /** The names directly below a prefix: of directories, and of files. */
    method ListDir(prefix: Path) returns (directories: set<string>, files: set<string>)
      ensures forall name :: name in files <==> prefix + [name] in objects
      ensures forall k | k in objects && IsUnder(k, prefix) && |k| > |prefix| + 1 :: k[|prefix|] in directories
      ensures forall name | name in directories ::
                exists k | k in objects :: IsUnder(k, prefix) && |k| > |prefix| + 1 && k[|prefix|] == name
    {
      directories := set k | k in objects && IsUnder(k, prefix) && |k| > |prefix| + 1 :: k[|prefix|];
      files := set k | k in objects && IsUnder(k, prefix) && |k| == |prefix| + 1 :: k[|prefix|];
      forall name ensures name in files <==> prefix + [name] in objects {
        if prefix + [name] in objects {
          assert IsUnder(prefix + [name], prefix) && (prefix + [name])[|prefix|] == name;
        }
        if name in files {
          var k :| k in objects && IsUnder(k, prefix) && |k| == |prefix| + 1 && k[|prefix|] == name;
          assert k == prefix + [name];
        }
      }
    }

    /** The first loop of the deletion: the files directly below the prefix. */
    method DeleteFiles(prefix: Path, files: set<string>) returns (removed: nat)
      requires forall name :: name in files <==> prefix + [name] in objects
      modifies this
      ensures forall k | k in objects :: k in old(objects) && objects[k] == old(objects)[k]
      ensures forall k | k in old(objects) && k !in objects :: IsUnder(k, prefix)
      ensures forall name :: prefix + [name] !in objects
      ensures removed == |old(objects)| - |objects|
    {
      removed := 0;
      var left := files;
      while left != {}
        invariant forall k | k in objects :: k in old(objects) && objects[k] == old(objects)[k]
        invariant forall k | k in old(objects) && k !in objects :: IsUnder(k, prefix)
        invariant forall name :: name in left <==> prefix + [name] in objects
        invariant removed == |old(objects)| - |objects|
        decreases left
      {
        var name :| name in left;
        var key := prefix + [name];
        assert |objects - {key}| == |objects| - 1 by {
          assert (objects - {key}).Keys == objects.Keys - {key};
        }
        forall other ensures prefix + [other] == key <==> other == name {
          assert (prefix + [other])[|prefix|] == other;
        }
        Delete(key);
        left := left - {name};
        removed := removed + 1;
      }
    }

    /** Everything strictly below the prefix goes, nothing else does, and the result is the count. */
    method DeletePrefix(prefix: Path) returns (removed: nat)
      modifies this
      ensures objects == Pruned(old(objects), prefix)
      ensures forall key :: key in objects <==>
                key in old(objects) && !(|key| > |prefix| && key[..|prefix|] == prefix)
      ensures forall key | key in objects :: objects[key] == old(objects)[key]
      ensures removed == |old(objects)| - |objects|
      decreases Deepest(objects.Keys) - |prefix|
    {
      var directories, files := ListDir(prefix);
      ghost var deepest := Deepest(objects.Keys);
      removed := DeleteFiles(prefix, files);
      forall k | k in objects && IsUnder(k, prefix) ensures |k| > |prefix| + 1 {
        assert prefix + [k[|prefix|]] !in objects;
        UnderChild(k, prefix);
      }
      while directories != {}
        invariant Clearing(old(objects), objects, prefix, directories)
        invariant directories != {} ==> deepest > |prefix| + 1
        invariant removed == |old(objects)| - |objects|
        decreases directories
      {
        var name :| name in directories;
        ClearingStep(old(objects), objects, prefix, directories, name);
        if objects.Keys != {} {
          ShallowerSubset(objects.Keys, old(objects).Keys);
        }
        var count := DeletePrefix(prefix + [name]);
        removed := removed + count;
        directories := directories - {name};
      }
    }
  }
}
