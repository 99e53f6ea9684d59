/**
 * The folder tree of the application as an object whose root it updates,
 * with the walking loops of `folderExists` and `stringToFolder` and the
 * rename loop of `moveFolder`.
 */
module FolderTrees {
  import opened Paths
  import opened Folders
  import opened FolderOps

  /** What `moveFolder` reports: one of its two alerts, or the name the moved folder ends with. */
  datatype MoveOutcome = InsideSourceRejected | SameFolderRejected | Moved(finalName: string)

  /** `folderExists(name, parent)`: walks the fragments of `name` down from `parent`. */
  method FolderExists(name: string, parent: Folder) returns (found: bool)
    ensures found == Exists(Split(name), parent)
  {
    var fragments := Split(name);
    var folder := parent;
    var i := 0;
    while i < |fragments|
      invariant 0 <= i <= |fragments|
      invariant Exists(fragments, parent) == Exists(fragments[i..], folder)
    {
      assert fragments[i..][1..] == fragments[i + 1..];
      if fragments[i] !in folder.children {
        return false;
      }
      folder := folder.children[fragments[i]];
      i := i + 1;
    }
    return true;
  }

  /** The loop `for (fragment of fragments) folder = folder.children[fragment]` over a walk known to succeed. */
  method Descend(parent: Folder, fragments: seq<string>) returns (folder: Folder)
    requires Get(parent, fragments).Some?
    ensures Get(parent, fragments) == Some(folder)
  {
    folder := parent;
    var i := 0;
    while i < |fragments|
      invariant 0 <= i <= |fragments|
      invariant Get(parent, fragments) == Get(folder, fragments[i..])
    {
      assert fragments[i..][1..] == fragments[i + 1..];
      folder := folder.children[fragments[i]];
      i := i + 1;
    }
  }

  /**
   * `stringToFolder(name, parent)`: the child keyed by the whole of `name`
   * when its immediate parent string is empty, otherwise the end of the
   * fragment walk when `folderExists` holds.
   */
  method StringToFolder(name: string, parent: Folder) returns (folder: Option<Folder>)
    ensures folder == Resolve(parent, name)
  {
    var fragments := Split(name);
    var immediateParent := Join(fragments[..|fragments| - 1]);
    if immediateParent == "" {
      folder := if name in parent.children then Some(parent.children[name]) else None;
      assert KeyPath(name) == [name];
      assert [name][1..] == [];
      assert Get(parent, [name]) == folder;
    } else {
      var found := FolderExists(name, parent);
      assert KeyPath(name) == fragments;
      ExistsIffGet(fragments, parent);
      if found {
        var end := Descend(parent, fragments);
        folder := Some(end);
        assert folder == Get(parent, KeyPath(name));
      } else {
        folder := None;
        assert folder == Get(parent, KeyPath(name));
      }
    }
  }

  /**
   * The collision loop of `moveFolder`: a `do ... while (conflictingNames)`
   * whose body counts the destination keys equal to the name, resets the
   * flag, and appends `_` and the count when it is positive. Because the
   * flag is reset, the body runs once, and because keys are unique the
   * count is at most one.
   */
  method ResolveCollision(name: string, siblings: map<string, Folder>) returns (newName: string)
    ensures newName == FinalName(name, siblings)
  {
    newName := name;
    var conflictingNames := false;
    var increment: nat := 0;
    var firstPass := true;
    while firstPass || conflictingNames
      invariant !conflictingNames
      invariant firstPass ==> increment == 0 && newName == name
      invariant !firstPass ==> newName == FinalName(name, siblings)
      decreases firstPass
    {
      var unseen := siblings.Keys;
      while unseen != {}
        invariant unseen <= siblings.Keys
        invariant firstPass ==> increment == if name in siblings.Keys - unseen then 1 else 0
        decreases unseen
      {
        var childFolderInDest :| childFolderInDest in unseen;
        if childFolderInDest == newName {
          conflictingNames := true;
          increment := increment + 1;
        }
        unseen := unseen - {childFolderInDest};
      }
      conflictingNames := false;
      if increment > 0 {
        newName := newName + "_" + Decimal(increment);
      }
      firstPass := false;
    }
  }

  /** The application's folder tree; every operation works on its root. */
  class FolderTree {
    var root: Folder

    /** The tree the application starts with. */
    constructor ()
      ensures root == InitialTree && WellFormed(root)
    {
      root := InitialTree;
      InitialTreeWellFormed();
    }

    /**
     * `addFolder(name, root)` for a path string. A name starting with `/`
     * walks through a top-level folder keyed `""`, which must be there.
     */
    method AddFolder(name: string)
      requires |name| > 0 && name[0] == '/' ==> "" in root.children
      modifies this
      ensures root == AddPath(old(root), Split(name))
      ensures old(WellFormed(root)) ==> WellFormed(root)
      decreases |Split(name)|
    {
      var fragments := Split(name);
      var dir := fragments[..|fragments| - 1];
      var simpleName := fragments[|fragments| - 1];
      var immediateParent := Join(dir);
      if immediateParent != "" {
        SplitJoin(dir);
        var parentExists := FolderExists(immediateParent, root);
        if !parentExists {
          assert |immediateParent| > 0 && immediateParent[0] == '/' ==> "" in root.children by {
            LeadingSlash(immediateParent);
            LeadingSlash(name);
          }
          AddFolder(immediateParent);
        }
      }
      ghost var prepared := root;
      assert Get(prepared, dir).Some? by {
        JoinEmpty(dir);
        LeadingSlash(name);
        ExistsIffGet(dir, prepared);
        if dir == [""] { assert dir[1..] == []; }
      }
      var folder := Descend(root, dir);
      root := Graft(root, dir, folder.(children := folder.children[simpleName := Empty(simpleName)]));
      assert root == AttachAt(prepared, dir, Empty(simpleName));
      if old(WellFormed(root)) {
        AddPathWellFormed(old(root), fragments);
      }
    }

    /** `addFolder(node, parent)`: attaches `node`, under its own name, to the folder at `at`. */
    method AttachNode(node: Folder, at: seq<string>)
      requires Get(root, at).Some?
      modifies this
      ensures root == AttachAt(old(root), at, node)
      ensures old(WellFormed(root)) && WellFormed(node) && '/' !in node.name ==> WellFormed(root)
    {
      var parent := Descend(root, at);
      if WellFormed(root) && WellFormed(node) && '/' !in node.name {
        SetEntryWellFormed(root, at, node.name, Some(node));
      }
      root := Graft(root, at, parent.(children := parent.children[node.name := node]));
    }

    /**
     * `deleteFolder(name, root)`: removes the single key `name` from the root
     * when the immediate parent string is empty, otherwise removes the last
     * fragment from the immediate parent when that exists.
     */
    method DeleteFolder(name: string)
      modifies this
      ensures root == RemoveAt(old(root), KeyPath(name))
      ensures old(WellFormed(root)) ==> WellFormed(root)
    {
      var fragments := Split(name);
      var dir := fragments[..|fragments| - 1];
      var immediateParent := Join(dir);
      ghost var path := KeyPath(name);
      if WellFormed(root) {
        RemoveWellFormed(root, path);
      }
      if immediateParent == "" {
        assert path == [name] && path[..0] == [];
        root := root.(children := root.children - {name});
      } else {
        assert path == fragments;
        SplitJoin(dir);
        var parentExists := FolderExists(immediateParent, root);
        ExistsIffGet(dir, root);
        if parentExists {
          var simpleName := fragments[|fragments| - 1];
          var folder := Descend(root, dir);
          root := Graft(root, dir, folder.(children := folder.children - {simpleName}));
        }
      }
    }

    /**
     * `moveFolder(source, destination, root)`. The source must resolve, and
     * so must the destination unless the first guard rejects the move:
     * otherwise main.js:65 or main.js:79 dereferences `undefined`.
     */
    method MoveFolder(source: string, destination: string) returns (outcome: MoveOutcome)
      requires Resolve(root, source).Some?
      requires Resolve(root, destination).Some? || InsideSource(root, source, destination)
      modifies this
      ensures InsideSource(old(root), source, destination) ==>
                outcome == InsideSourceRejected && root == old(root)
      ensures !InsideSource(old(root), source, destination) && source == destination ==>
                outcome == SameFolderRejected && root == old(root)
      ensures !InsideSource(old(root), source, destination) && source != destination ==>
                MoveAccepted(old(root), source, destination) &&
                outcome == Moved(FinalName(Resolve(old(root), source).value.name,
                                           Resolve(old(root), destination).value.children)) &&
                root == Relocated(old(root), source, destination)
      ensures old(WellFormed(root)) ==> WellFormed(root)
    {
      var sourceFolder := StringToFolder(source, root);
      var destinationFolder := StringToFolder(destination, root);
      var dFragments := Split(destination);
      var sFragments := Split(source);
      var dRelativeToS := Join(Slice(dFragments, |sFragments|));
      var inside := FolderExists(dRelativeToS, sourceFolder.value);
      if inside {
        return InsideSourceRejected;
      }
      if source == destination {
        return SameFolderRejected;
      }
      var newName := ResolveCollision(sourceFolder.value.name, destinationFolder.value.children);
      var moving := sourceFolder.value.(name := newName);
      GuardsKeepDestination(root, source, destination);
      if WellFormed(root) {
        MoveWellFormed(root, source, destination);
      }
      DeleteFolder(source);
      AttachNode(moving, KeyPath(destination));
      outcome := Moved(newName);
    }
  }
}
