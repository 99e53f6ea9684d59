/**
 * The effect of `addFolder`, `deleteFolder` and `moveFolder` on a folder
 * tree, as functions of the tree before the call, and the properties these
 * operations promise.
 */
module FolderOps {
  import opened Paths
  import opened Folders

  // ---------------------------------------------------------------- add

  /**
   * `addFolder(name, parent)` for a path string whose split is `fragments`:
   * when the immediate parent string is not empty and does not exist, it is
   * added first; then the folder at the immediate parent gets a fresh empty
   * child under the last fragment, replacing any child of that name.
   */
  function AddPath(t: Folder, fragments: seq<string>): (r: Folder)
    requires |fragments| >= 1
    requires |fragments| >= 2 && fragments[0] == "" ==> "" in t.children
    ensures Get(r, fragments).Some?
    ensures r.children.Keys == t.children.Keys + {fragments[0]}
    decreases |fragments|
  {
    var dir := fragments[..|fragments| - 1];
    var simpleName := fragments[|fragments| - 1];
    JoinEmpty(dir);
    ExistsIffGet(dir, t);
    assert dir == [""] ==> Get(t, dir).Some? by {
      if dir == [""] { assert dir[1..] == []; }
    }
    var prepared := if Join(dir) != "" && !Exists(dir, t) then AddPath(t, dir) else t;
    assert dir + [simpleName] == fragments;
    GetSetEntry(prepared, dir, simpleName, Some(Empty(simpleName)), fragments);
    AttachAt(prepared, dir, Empty(simpleName))
  }

  /**
   * What adding does to every walk: the added path ends at a fresh empty
   * folder (and nothing lies below it), paths off the added path are
   * unchanged, and every folder on the way exists afterwards, with its old
   * name if it existed before.
   */
  lemma {:induction false} AddPathEffect(t: Folder, fragments: seq<string>, q: seq<string>)
    requires |fragments| >= 1
    requires |fragments| >= 2 && fragments[0] == "" ==> "" in t.children
    ensures IsPrefix(fragments, q) ==>
              Get(AddPath(t, fragments), q) == Get(Empty(fragments[|fragments| - 1]), q[|fragments|..])
    ensures Diverge(fragments, q) ==> Get(AddPath(t, fragments), q) == Get(t, q)
    ensures IsPrefix(q, fragments) && q != fragments ==>
              Get(AddPath(t, fragments), q).Some? &&
              (Get(t, q).Some? ==> Get(AddPath(t, fragments), q).value.name == Get(t, q).value.name)
    decreases |fragments|
  {
    var dir := fragments[..|fragments| - 1];
    var simpleName := fragments[|fragments| - 1];
    var r := AddPath(t, fragments);
    JoinEmpty(dir);
    ExistsIffGet(dir, t);
    assert dir == [""] ==> Get(t, dir).Some? by {
      if dir == [""] { assert dir[1..] == []; }
    }
    var recursed := Join(dir) != "" && !Exists(dir, t);
    var prepared := if recursed then AddPath(t, dir) else t;
    assert dir + [simpleName] == fragments;
    GetSetEntry(prepared, dir, simpleName, Some(Empty(simpleName)), q);
    if recursed {
      AddPathEffect(t, dir, q);
    }
    if Diverge(fragments, q) && recursed {
      if IsPrefix(dir, q) {
        assert q != dir;
        assert q[|dir|..] != [] by { assert q[..|dir|] == dir; }
        GetConcat(t, dir, q[|dir|..]);
        assert q == dir + q[|dir|..];
      }
    }
    if IsPrefix(q, fragments) && q != fragments {
      assert IsPrefix(q, dir) by {
        assert |q| < |fragments|;
        assert dir[..|q|] == fragments[..|q|];
      }
      if recursed && q == dir {
        assert Get(t, q).None?;
      }
    }
  }

  /** After adding, the path and every path on the way to it exist. */
  lemma AddCreatesPath(t: Folder, fragments: seq<string>)
    requires |fragments| >= 1
    requires |fragments| >= 2 && fragments[0] == "" ==> "" in t.children
    ensures forall i :: 1 <= i <= |fragments| ==> Exists(fragments[..i], AddPath(t, fragments))
  {
    var r := AddPath(t, fragments);
    forall i | 1 <= i <= |fragments|
      ensures Exists(fragments[..i], r)
    {
      GetPrefix(r, fragments, i);
      ExistsIffGet(fragments[..i], r);
    }
  }

  /** The added path ends at a fresh folder named after the last fragment, with no children. */
  lemma AddGivesFreshFolder(t: Folder, fragments: seq<string>)
    requires |fragments| >= 1
    requires |fragments| >= 2 && fragments[0] == "" ==> "" in t.children
    ensures Get(AddPath(t, fragments), fragments) == Some(Folder(fragments[|fragments| - 1], map[]))
  {
    AddPathEffect(t, fragments, fragments);
    assert fragments[|fragments|..] == [];
  }

  /** Adding the same path twice gives the same tree as adding it once. */
  lemma AddIdempotent(t: Folder, fragments: seq<string>)
    requires |fragments| >= 1
    requires |fragments| >= 2 && fragments[0] == "" ==> "" in t.children
    ensures AddPath(AddPath(t, fragments), fragments) == AddPath(t, fragments)
  {
    var dir := fragments[..|fragments| - 1];
    var simpleName := fragments[|fragments| - 1];
    var once := AddPath(t, fragments);
    JoinEmpty(dir);
    ExistsIffGet(dir, t);
    assert dir == [""] ==> Get(t, dir).Some? by {
      if dir == [""] { assert dir[1..] == []; }
    }
    var prepared := if Join(dir) != "" && !Exists(dir, t) then AddPath(t, dir) else t;
    GetPrefix(once, fragments, |fragments| - 1);
    ExistsIffGet(dir, once);
    SetEntryTwice(prepared, dir, simpleName, Some(Empty(simpleName)), Some(Empty(simpleName)));
  }

  /** Adding slash-free fragments keeps every key equal to its folder's name. */
  lemma {:induction false} AddPathWellFormed(t: Folder, fragments: seq<string>)
    requires |fragments| >= 1
    requires |fragments| >= 2 && fragments[0] == "" ==> "" in t.children
    requires forall i :: 0 <= i < |fragments| ==> '/' !in fragments[i]
    requires WellFormed(t)
    ensures WellFormed(AddPath(t, fragments))
    decreases |fragments|
  {
    var dir := fragments[..|fragments| - 1];
    var simpleName := fragments[|fragments| - 1];
    JoinEmpty(dir);
    ExistsIffGet(dir, t);
    assert dir == [""] ==> Get(t, dir).Some? by {
      if dir == [""] { assert dir[1..] == []; }
    }
    var prepared := if Join(dir) != "" && !Exists(dir, t) then AddPath(t, dir) else t;
    if Join(dir) != "" && !Exists(dir, t) {
      AddPathWellFormed(t, dir);
    }
    SetEntryWellFormed(prepared, dir, simpleName, Some(Empty(simpleName)));
  }

  // ------------------------------------------------------------- delete

  /**
   * `deleteFolder`: the entry at the end of `path` is removed from its
   * parent folder; when that parent folder does not exist nothing happens.
   */
  function RemoveAt(t: Folder, path: seq<string>): (r: Folder)
    requires |path| >= 1
    ensures Get(r, path) == None
  {
    var dir := path[..|path| - 1];
    var key := path[|path| - 1];
    assert dir + [key] == path;
    ExistsIffGet(dir, t);
    GetConcat(t, dir, [key]);
    if Exists(dir, t) then
      GetSetEntry(t, dir, key, None, path);
      DetachAt(t, dir, key)
    else t
  }

  /**
   * What removing does to every walk: nothing at or below `path` is left,
   * paths off it are unchanged, and the folders on the way stay, with
   * their names.
   */
  lemma RemoveEffect(t: Folder, path: seq<string>, q: seq<string>)
    requires |path| >= 1
    ensures !Exists(path[..|path| - 1], t) ==> RemoveAt(t, path) == t
    ensures IsPrefix(path, q) ==> Get(RemoveAt(t, path), q) == None
    ensures Diverge(path, q) ==> Get(RemoveAt(t, path), q) == Get(t, q)
    ensures IsPrefix(q, path) && q != path && Get(t, q).Some? ==>
              Get(RemoveAt(t, path), q).Some? && Get(RemoveAt(t, path), q).value.name == Get(t, q).value.name
  {
    var dir := path[..|path| - 1];
    var key := path[|path| - 1];
    assert dir + [key] == path;
    ExistsIffGet(dir, t);
    if Exists(dir, t) {
      GetSetEntry(t, dir, key, None, q);
      if IsPrefix(q, path) && q != path {
        assert IsPrefix(q, dir) by { assert dir[..|q|] == path[..|q|]; }
      }
    } else if IsPrefix(path, q) {
      GetConcat(t, path, q[|path|..]);
      GetConcat(t, dir, [key]);
      assert q == path + q[|path|..];
    }
  }

  /** Deleting the same path twice gives the same tree as deleting it once. */
  lemma RemoveIdempotent(t: Folder, path: seq<string>)
    requires |path| >= 1
    ensures RemoveAt(RemoveAt(t, path), path) == RemoveAt(t, path)
  {
    var dir := path[..|path| - 1];
    var key := path[|path| - 1];
    ExistsIffGet(dir, t);
    if Exists(dir, t) {
      SetEntryTwice(t, dir, key, None, None);
      ExistsIffGet(dir, DetachAt(t, dir, key));
    }
  }

  lemma RemoveWellFormed(t: Folder, path: seq<string>)
    requires |path| >= 1
    requires WellFormed(t)
    ensures WellFormed(RemoveAt(t, path))
  {
    var dir := path[..|path| - 1];
    ExistsIffGet(dir, t);
    if Exists(dir, t) {
      SetEntryWellFormed(t, dir, path[|path| - 1], None);
    }
  }

  /**
   * After `deleteFolder(name)` the name no longer exists, except for a name
   * `"/x"`: it is deleted as the key `"/x"`, which a well-formed tree never
   * holds, so the tree stays as it was.
   */
  lemma DeleteFolderRemoves(t: Folder, name: string)
    ensures !SlashedTopLevel(name) ==> !Exists(Split(name), RemoveAt(t, KeyPath(name)))
    ensures WellFormed(t) && SlashedTopLevel(name) ==> RemoveAt(t, KeyPath(name)) == t
  {
    KeyPathSplit(name);
    ExistsIffGet(Split(name), RemoveAt(t, KeyPath(name)));
    if WellFormed(t) && SlashedTopLevel(name) {
      assert name !in t.children;
      assert KeyPath(name)[..0] == [];
      assert t.children - {name} == t.children;
    }
  }

  // ---------------------------------------------------------- resolve

  /** `stringToFolder(name, t)`: the folder under the key sequence of `name`, if any. */
  function Resolve(t: Folder, name: string): Option<Folder>
  {
    Get(t, KeyPath(name))
  }

  /**
   * `stringToFolder` finds a folder exactly when `folderExists` holds, and
   * that folder is the end of the fragment walk, except for a name `"/x"`,
   * for which a well-formed tree never yields a folder.
   */
  lemma ResolveAgreesWithExists(t: Folder, name: string)
    ensures !SlashedTopLevel(name) ==>
              Resolve(t, name) == Get(t, Split(name)) && (Resolve(t, name).Some? <==> Exists(Split(name), t))
    ensures WellFormed(t) && SlashedTopLevel(name) ==> Resolve(t, name) == None
  {
    KeyPathSplit(name);
    ExistsIffGet(Split(name), t);
    if WellFormed(t) && SlashedTopLevel(name) {
      assert name !in t.children;
    }
  }

  /**
   * With a folder `""` holding a folder `x` at the top, `folderExists("/x")`
   * holds but `stringToFolder("/x")` finds nothing.
   */
  lemma SlashedNameDisagreement()
    ensures var t := Folder("root", map["" := Folder("", map["x" := Empty("x")])]);
            WellFormed(t) && Exists(Split("/x"), t) && Resolve(t, "/x") == None
  {
    var t := Folder("root", map["" := Folder("", map["x" := Empty("x")])]);
    assert Split("/x") == ["", "x"] by {
      assert "/x"[1..] == "x";
      SplitPlain("x");
    }
    assert WellFormed(t) by {
      assert WellFormed(Empty("x"));
      assert WellFormed(t.children[""]);
    }
    ResolveAgreesWithExists(t, "/x");
  }

  // ------------------------------------------------------------- move

  /**
   * The guard of `moveFolder` against moving into the source: the destination
   * fragments after the first `|source fragments|` ones, joined and split
   * again, exist under the source folder.
   */
  predicate InsideSource(t: Folder, source: string, destination: string)
    requires Resolve(t, source).Some?
  {
    Exists(Split(Join(Slice(Split(destination), |Split(source)|))), Resolve(t, source).value)
  }

  /**
   * The guard tests the destination fragments beyond the source's length,
   * or the key `""` when the destination has no more fragments than the source.
   */
  lemma InsideSourceTests(t: Folder, source: string, destination: string)
    requires Resolve(t, source).Some?
    ensures var d, s := Split(destination), Split(source);
            InsideSource(t, source, destination) ==
            Exists(if |d| > |s| then d[|s|..] else [""], Resolve(t, source).value)
  {
    var d, s := Split(destination), Split(source);
    if |d| > |s| {
      SplitJoin(d[|s|..]);
    }
  }

  /** Every destination strictly inside the source is rejected by the guard. */
  lemma InsideSourceCoversDescendants(t: Folder, source: string, destination: string)
    requires Resolve(t, source).Some? && Resolve(t, destination).Some?
    requires IsPrefix(KeyPath(source), KeyPath(destination)) && KeyPath(source) != KeyPath(destination)
    ensures InsideSource(t, source, destination)
  {
    var sp, dp := KeyPath(source), KeyPath(destination);
    assert dp == Split(destination);
    assert sp == dp[..|sp|];
    assert Split(source) == sp by {
      if ImmediateParent(source) == "" {
        assert '/' !in source by { assert sp[0] == dp[0]; }
        SplitPlain(source);
      }
    }
    var rest := dp[|sp|..];
    assert Slice(Split(destination), |Split(source)|) == rest;
    SplitJoin(rest);
    assert dp == sp + rest;
    GetConcat(t, sp, rest);
    ExistsIffGet(rest, Resolve(t, source).value);
  }

  /**
   * The guard also rejects a move whose destination is not inside the source:
   * moving `a` to `b/x` when both `a` and `b` hold a folder `x`.
   */
  lemma InsideSourceOverreaches()
    ensures var t := Folder("root", map["a" := Folder("a", map["x" := Empty("x")]),
                                        "b" := Folder("b", map["x" := Empty("x")])]);
            Resolve(t, "a").Some? && Resolve(t, "b/x").Some? &&
            !IsPrefix(KeyPath("a"), KeyPath("b/x")) && InsideSource(t, "a", "b/x")
  {
    var t := Folder("root", map["a" := Folder("a", map["x" := Empty("x")]),
                                "b" := Folder("b", map["x" := Empty("x")])]);
    SplitPlain("a");
    SplitPlain("b");
    SplitPlain("x");
    SplitAtSlash("b", "x");
    assert Split("b/x") == ["b", "x"];
    assert KeyPath("a") == ["a"];
    assert KeyPath("b/x") == ["b", "x"];
    assert Get(t, ["b", "x"]) == Get(t.children["b"], ["x"]);
    InsideSourceTests(t, "a", "b/x");
    assert ["b", "x"][1..] == ["x"];
  }

  /**
   * The name the moved folder ends with: its own name, or that name with
   * `_1` appended when the destination already has a child of that name.
   */
  function FinalName(name: string, siblings: map<string, Folder>): string
  {
    if name in siblings then name + "_1" else name
  }

  /** Both paths resolve, and neither guard of `moveFolder` rejects the move. */
  predicate MoveAccepted(t: Folder, source: string, destination: string)
  {
    Resolve(t, source).Some? && Resolve(t, destination).Some? &&
    !InsideSource(t, source, destination) && source != destination
  }

  /** Removing the source entry leaves the destination folder in place when the guards pass. */
  lemma GuardsKeepDestination(t: Folder, source: string, destination: string)
    requires MoveAccepted(t, source, destination)
    ensures Get(RemoveAt(t, KeyPath(source)), KeyPath(destination)).Some?
  {
    var sp, dp := KeyPath(source), KeyPath(destination);
    if sp == dp {
      KeyPathInjective(source, destination);
    }
    if IsPrefix(sp, dp) && sp != dp {
      InsideSourceCoversDescendants(t, source, destination);
    }
    RemoveEffect(t, sp, dp);
  }

  /**
   * The tree after an accepted `moveFolder(source, destination)`: the source
   * entry deleted, then the source folder, under its final name, attached to
   * the destination folder.
   */
  function Relocated(t: Folder, source: string, destination: string): Folder
    requires MoveAccepted(t, source, destination)
  {
    var moving := Resolve(t, source).value;
    var name := FinalName(moving.name, Resolve(t, destination).value.children);
    GuardsKeepDestination(t, source, destination);
    AttachAt(RemoveAt(t, KeyPath(source)), KeyPath(destination), moving.(name := name))
  }

  /**
   * An accepted move relocates the source subtree intact to
   * `destination + [final name]`; the source path is gone unless it lay
   * inside that entry; every path off both entries is unchanged.
   */
  lemma MoveEffect(t: Folder, source: string, destination: string, q: seq<string>)
    requires MoveAccepted(t, source, destination)
    ensures var moving := Resolve(t, source).value;
            var name := FinalName(moving.name, Resolve(t, destination).value.children);
            var target := KeyPath(destination) + [name];
            && Get(Relocated(t, source, destination), target) == Some(Folder(name, moving.children))
            && (!IsPrefix(target, KeyPath(source)) ==> !Exists(KeyPath(source), Relocated(t, source, destination)))
            && (Diverge(q, KeyPath(source)) && Diverge(q, target) ==>
                  Get(Relocated(t, source, destination), q) == Get(t, q))
  {
    var moving := Resolve(t, source).value;
    var name := FinalName(moving.name, Resolve(t, destination).value.children);
    var sp, dp := KeyPath(source), KeyPath(destination);
    var target := dp + [name];
    var detached := RemoveAt(t, sp);
    var r := Relocated(t, source, destination);
    GuardsKeepDestination(t, source, destination);
    GetSetEntry(detached, dp, name, Some(moving.(name := name)), q);
    GetSetEntry(detached, dp, name, Some(moving.(name := name)), sp);
    RemoveEffect(t, sp, q);
    RemoveEffect(t, sp, sp);
    ExistsIffGet(sp, r);
  }

  /**
   * An accepted move renames no folder but the moved one: every folder on
   * the way to the destination, and every folder on the way to the source
   * that is not inside the entry the folder is moved to, is still there
   * with its old name.
   */
  lemma MoveKeepsAncestors(t: Folder, source: string, destination: string, q: seq<string>)
    requires MoveAccepted(t, source, destination)
    ensures var name := FinalName(Resolve(t, source).value.name, Resolve(t, destination).value.children);
            var target := KeyPath(destination) + [name];
            (IsPrefix(q, KeyPath(destination)) ||
             (IsPrefix(q, KeyPath(source)) && q != KeyPath(source) && !IsPrefix(target, q))) ==>
              Get(t, q).Some? && Get(Relocated(t, source, destination), q).Some? &&
              Get(Relocated(t, source, destination), q).value.name == Get(t, q).value.name
  {
    var moving := Resolve(t, source).value;
    var name := FinalName(moving.name, Resolve(t, destination).value.children);
    var sp, dp := KeyPath(source), KeyPath(destination);
    var target := dp + [name];
    var detached := RemoveAt(t, sp);
    GuardsKeepDestination(t, source, destination);
    RemoveEffect(t, sp, q);
    GetSetEntry(detached, dp, name, Some(moving.(name := name)), q);
    if IsPrefix(q, dp) {
      assert dp[..|q|] == q;
      GetPrefix(t, dp, |q|);
    } else if IsPrefix(q, sp) && q != sp && !IsPrefix(target, q) {
      assert sp[..|q|] == q;
      GetPrefix(t, sp, |q|);
    }
  }

  /**
   * Moving `x` into `y`, which already holds an `x`, renames the moved folder
   * once, to `x_1`; an existing `x_1` in `y` is replaced by it.
   */
  lemma MoveRenamesOnce()
    ensures var t := Folder("root", map["x" := Empty("x"),
                                        "y" := Folder("y", map["x" := Empty("x"),
                                                               "x_1" := Folder("x_1", map["z" := Empty("z")])])]);
            MoveAccepted(t, "x", "y") &&
            FinalName("x", Resolve(t, "y").value.children) == "x_1" &&
            Relocated(t, "x", "y") ==
              Folder("root", map["y" := Folder("y", map["x" := Empty("x"), "x_1" := Empty("x_1")])])
  {
    var t := Folder("root", map["x" := Empty("x"),
                                "y" := Folder("y", map["x" := Empty("x"),
                                                       "x_1" := Folder("x_1", map["z" := Empty("z")])])]);
    SplitPlain("x");
    SplitPlain("y");
    assert KeyPath("x") == ["x"];
    assert KeyPath("y") == ["y"];
    assert ["x"][1..] == [] && ["y"][1..] == [];
    assert Resolve(t, "x") == Some(Empty("x"));
    InsideSourceTests(t, "x", "y");
    assert !InsideSource(t, "x", "y");
    assert ["x"][..0] == [];
    var detached := RemoveAt(t, ["x"]);
    assert detached == t.(children := t.children - {"x"});
    var y := t.children["y"];
    assert y.children["x_1" := Empty("x_1")] == map["x" := Empty("x"), "x_1" := Empty("x_1")];
    assert (t.children - {"x"})["y" := y.(children := y.children["x_1" := Empty("x_1")])] ==
           map["y" := Folder("y", map["x" := Empty("x"), "x_1" := Empty("x_1")])];
  }

  /** An accepted move keeps every key equal to its folder's name. */
  lemma MoveWellFormed(t: Folder, source: string, destination: string)
    requires MoveAccepted(t, source, destination)
    requires WellFormed(t)
    ensures WellFormed(Relocated(t, source, destination))
  {
    var moving := Resolve(t, source).value;
    var name := FinalName(moving.name, Resolve(t, destination).value.children);
    var sp, dp := KeyPath(source), KeyPath(destination);
    WellFormedGet(t, sp);
    assert '/' !in name;
    assert WellFormed(moving.(name := name));
    RemoveWellFormed(t, sp);
    GuardsKeepDestination(t, source, destination);
    SetEntryWellFormed(RemoveAt(t, sp), dp, name, Some(moving.(name := name)));
  }
}
