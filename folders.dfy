/**
 * Folder trees as values: a folder has a name and a map from simple names to
 * child folders. Walks along a sequence of child keys, and surgery that
 * replaces, adds or removes one entry at the end of such a walk.
 */
module Folders {

  datatype Option<T> = None | Some(value: T)

  /** A folder: its own name and its children, keyed by simple name. */
  datatype Folder = Folder(name: string, children: map<string, Folder>)

  /** A fresh folder without children. */
  function Empty(name: string): Folder
  {
    Folder(name, map[])
  }

  /** The tree the application starts from: a root holding one empty folder `f1`. */
  const InitialTree: Folder := Folder("root", map["f1" := Empty("f1")])

  /**
   * The walk of `folderExists`: follows `path` child by child from `t` and
   * fails at the first key that is missing.
   */
  predicate Exists(path: seq<string>, t: Folder)
  {
    |path| == 0 || (path[0] in t.children && Exists(path[1..], t.children[path[0]]))
  }

  /** The walk of `stringToFolder`: the folder at the end of `path`, if any. */
  function Get(t: Folder, path: seq<string>): Option<Folder>
  {
    if path == [] then Some(t)
    else if path[0] in t.children then Get(t.children[path[0]], path[1..])
    else None
  }

  /** The existence walk succeeds exactly when the lookup walk finds a folder. */
  lemma {:induction false} ExistsIffGet(path: seq<string>, t: Folder)
    ensures Exists(path, t) <==> Get(t, path).Some?
  {
    if path != [] && path[0] in t.children {
      ExistsIffGet(path[1..], t.children[path[0]]);
    }
  }

  predicate IsPrefix(p: seq<string>, q: seq<string>)
  {
    |p| <= |q| && q[..|p|] == p
  }

  /** Neither path lies on the walk of the other. */
  predicate Diverge(p: seq<string>, q: seq<string>)
  {
    !IsPrefix(p, q) && !IsPrefix(q, p)
  }

  /** Walking `p + q` is walking `p`, then `q` from where `p` ends. */
  lemma {:induction false} GetConcat(t: Folder, p: seq<string>, q: seq<string>)
    ensures Get(t, p + q) == if Get(t, p).Some? then Get(Get(t, p).value, q) else None
  {
    if p == [] {
      assert p + q == q;
    } else {
      assert (p + q)[0] == p[0];
      assert (p + q)[1..] == p[1..] + q;
      if p[0] in t.children {
        GetConcat(t.children[p[0]], p[1..], q);
      }
    }
  }

  /** Every prefix of a path that exists exists too. */
  lemma {:induction false} GetPrefix(t: Folder, p: seq<string>, i: nat)
    requires i <= |p|
    requires Get(t, p).Some?
    ensures Get(t, p[..i]).Some?
  {
    GetConcat(t, p[..i], p[i..]);
    assert p[..i] + p[i..] == p;
  }

  /** `t` with the folder at `at` replaced by `node`. */
  function Graft(t: Folder, at: seq<string>, node: Folder): (r: Folder)
    requires Get(t, at).Some?
    ensures Get(r, at) == Some(node)
    ensures at != [] ==> r.name == t.name && r.children.Keys == t.children.Keys
  {
    if at == [] then node
    else t.(children := t.children[at[0] := Graft(t.children[at[0]], at[1..], node)])
  }

  /**
   * What grafting does to every walk: below `at` one sees `node`, off the walk
   * to `at` nothing changes, and the folders on the way keep their names.
   */
  lemma {:induction false} GetGraft(t: Folder, at: seq<string>, node: Folder, q: seq<string>)
    requires Get(t, at).Some?
    ensures IsPrefix(at, q) ==> Get(Graft(t, at, node), q) == Get(node, q[|at|..])
    ensures Diverge(at, q) ==> Get(Graft(t, at, node), q) == Get(t, q)
    ensures IsPrefix(q, at) && q != at ==>
              Get(t, q).Some? && Get(Graft(t, at, node), q).Some? &&
              Get(Graft(t, at, node), q).value.name == Get(t, q).value.name
  {
    var r := Graft(t, at, node);
    if at == [] {
      assert q[|at|..] == q;
    } else if q == [] {
      assert IsPrefix(q, at);
    } else if q[0] != at[0] {
      assert Diverge(at, q) by {
        assert !IsPrefix(at, q) by { if |at| <= |q| { assert q[..|at|][0] == q[0]; } }
        assert !IsPrefix(q, at) by { if |q| <= |at| { assert at[..|q|][0] == at[0]; } }
      }
    } else {
      GetGraft(t.children[at[0]], at[1..], node, q[1..]);
      assert IsPrefix(at, q) <==> IsPrefix(at[1..], q[1..]) by {
        if |at| <= |q| {
          assert q[..|at|] == [q[0]] + q[1..][..|at| - 1];
          assert at == [at[0]] + at[1..];
        }
      }
      assert IsPrefix(q, at) <==> IsPrefix(q[1..], at[1..]) by {
        if |q| <= |at| {
          assert at[..|q|] == [at[0]] + at[1..][..|q| - 1];
          assert q == [q[0]] + q[1..];
        }
      }
      assert q[1..] != at[1..] <==> q != at by {
        assert q == [q[0]] + q[1..];
        assert at == [at[0]] + at[1..];
      }
      if |at| <= |q| {
        assert q[|at|..] == q[1..][|at[1..]|..];
      }
    }
  }

  /** Grafting twice at the same place keeps only the second graft. */
  lemma {:induction false} GraftTwice(t: Folder, at: seq<string>, n1: Folder, n2: Folder)
    requires Get(t, at).Some?
    ensures Graft(Graft(t, at, n1), at, n2) == Graft(t, at, n2)
  {
    if at != [] {
      GraftTwice(t.children[at[0]], at[1..], n1, n2);
    }
  }

  /**
   * `t` with the entry `key` of the folder at `dir` set to `entry`, or removed
   * when `entry` is `None`: the assignment `folder.children[key] = ...` and the
   * statement `delete folder.children[key]` of the source, made on a value.
   */
  function SetEntry(t: Folder, dir: seq<string>, key: string, entry: Option<Folder>): Folder
    requires Get(t, dir).Some?
  {
    var d := Get(t, dir).value;
    Graft(t, dir, d.(children := if entry.Some? then d.children[key := entry.value] else d.children - {key}))
  }

  /** `addFolder(node, parent)`: `node` becomes the child of the folder at `dir` under its own name. */
  function AttachAt(t: Folder, dir: seq<string>, node: Folder): Folder
    requires Get(t, dir).Some?
  {
    SetEntry(t, dir, node.name, Some(node))
  }

  /** The entry `key` of the folder at `dir` removed. */
  function DetachAt(t: Folder, dir: seq<string>, key: string): Folder
    requires Get(t, dir).Some?
  {
    SetEntry(t, dir, key, None)
  }

  /**
   * What setting one entry does to every walk: at and below `dir + [key]` one
   * sees the new entry (or nothing), off that walk nothing changes, and the
   * folders from `t` down to `dir` stay, with their names.
   */
  lemma GetSetEntry(t: Folder, dir: seq<string>, key: string, entry: Option<Folder>, q: seq<string>)
    requires Get(t, dir).Some?
    ensures Get(SetEntry(t, dir, key, entry), dir + [key]) == entry
    ensures IsPrefix(dir + [key], q) ==>
              Get(SetEntry(t, dir, key, entry), q) == if entry.Some? then Get(entry.value, q[|dir| + 1..]) else None
    ensures Diverge(dir + [key], q) ==> Get(SetEntry(t, dir, key, entry), q) == Get(t, q)
    ensures IsPrefix(q, dir) ==>
              Get(t, q).Some? && Get(SetEntry(t, dir, key, entry), q).Some? &&
              Get(SetEntry(t, dir, key, entry), q).value.name == Get(t, q).value.name
  {
    var d := Get(t, dir).value;
    var d' := d.(children := if entry.Some? then d.children[key := entry.value] else d.children - {key});
    var r := SetEntry(t, dir, key, entry);
    var p := dir + [key];
    assert p[..|dir|] == dir;
    GetGraft(t, dir, d', p);
    assert p[|dir|..] == [key];
    assert Get(d', [key]) == entry;
    GetGraft(t, dir, d', q);
    if IsPrefix(p, q) {
      assert IsPrefix(dir, q) by { assert q[..|dir|] == p[..|dir|]; }
      var rest := q[|dir| + 1..];
      assert q[|dir|..] == [key] + rest;
      GetConcat(d', [key], rest);
    } else if Diverge(p, q) {
      if IsPrefix(dir, q) {
        assert |q| > |dir| && q[|dir|] != key;
        var j := q[|dir|];
        var rest := q[|dir| + 1..];
        assert q[|dir|..] == [j] + rest;
        GetConcat(d', [j], rest);
        GetConcat(d, [j], rest);
        assert q == dir + ([j] + rest);
        GetConcat(t, dir, [j] + rest);
      }
    } else if IsPrefix(q, dir) && q == dir {
      assert q[|dir|..] == [];
    }
  }

  /** Setting one entry twice keeps only the second value. */
  lemma SetEntryTwice(t: Folder, dir: seq<string>, key: string, e1: Option<Folder>, e2: Option<Folder>)
    requires Get(t, dir).Some?
    ensures Get(SetEntry(t, dir, key, e1), dir).Some?
    ensures SetEntry(SetEntry(t, dir, key, e1), dir, key, e2) == SetEntry(t, dir, key, e2)
  {
    var d := Get(t, dir).value;
    var d1 := d.(children := if e1.Some? then d.children[key := e1.value] else d.children - {key});
    var t1 := Graft(t, dir, d1);
    var d2 := d1.(children := if e2.Some? then d1.children[key := e2.value] else d1.children - {key});
    GraftTwice(t, dir, d1, d2);
    assert d2 == d.(children := if e2.Some? then d.children[key := e2.value] else d.children - {key});
  }

  /**
   * The invariant that the source keeps: every child's key equals the
   * child's own name, and no key contains a slash.
   */
  ghost predicate WellFormed(t: Folder)
  {
    forall k :: k in t.children ==> '/' !in k && t.children[k].name == k && WellFormed(t.children[k])
  }

  lemma InitialTreeWellFormed()
    ensures WellFormed(InitialTree)
  {
  }

  /**
   * In a well-formed tree every folder reached by a walk is well-formed and
   * carries the last key of the walk as its name.
   */
  lemma {:induction false} WellFormedGet(t: Folder, p: seq<string>)
    requires WellFormed(t)
    requires Get(t, p).Some?
    ensures WellFormed(Get(t, p).value)
    ensures p != [] ==> Get(t, p).value.name == p[|p| - 1] && '/' !in p[|p| - 1]
  {
    if p != [] {
      WellFormedGet(t.children[p[0]], p[1..]);
      if |p| == 1 {
        assert p[1..] == [];
      } else {
        assert p[1..][|p[1..]| - 1] == p[|p| - 1];
      }
    }
  }

  /** Setting an entry to a well-formed folder of the same name, or removing it, keeps the tree well-formed. */
  lemma SetEntryWellFormed(t: Folder, dir: seq<string>, key: string, entry: Option<Folder>)
    requires WellFormed(t)
    requires Get(t, dir).Some?
    requires entry.Some? ==> WellFormed(entry.value) && entry.value.name == key && '/' !in key
    ensures WellFormed(SetEntry(t, dir, key, entry))
  {
  }
}
