/**
 * Slash-separated folder paths, split and joined the way the JavaScript
 * `String.prototype.split('/')` and `Array.prototype.join('/')` do it.
 */
module Paths {

  /** `s.split('/')`: the pieces between slashes; `""` splits to `[""]`. */
  function Split(s: string): (r: seq<string>)
    ensures |r| >= 1
    ensures forall i :: 0 <= i < |r| ==> '/' !in r[i]
    ensures '/' in s <==> |r| >= 2
  {
    if s == "" then [""]
    else if s[0] == '/' then [""] + Split(s[1..])
    else
      var rest := Split(s[1..]);
      [[s[0]] + rest[0]] + rest[1..]
  }

  /** `xs.join('/')`; an empty array joins to `""`. */
  function Join(xs: seq<string>): string
  {
    if xs == [] then ""
    else if |xs| == 1 then xs[0]
    else xs[0] + "/" + Join(xs[1..])
  }

  /** Joining the pieces of a split gives the string back. */
  lemma {:induction false} JoinSplit(s: string)
    ensures Join(Split(s)) == s
  {
    if s == "" {
    } else if s[0] == '/' {
      JoinSplit(s[1..]);
      assert Split(s) == [""] + Split(s[1..]);
    } else {
      JoinSplit(s[1..]);
      var rest := Split(s[1..]);
      assert Split(s) == [[s[0]] + rest[0]] + rest[1..];
      if |rest| == 1 {
        assert Join(Split(s)) == [s[0]] + rest[0];
      } else {
        assert Join(rest) == rest[0] + "/" + Join(rest[1..]);
        assert (Split(s))[1..] == rest[1..];
      }
    }
  }

  lemma {:induction false} SplitPlain(a: string)
    requires '/' !in a
    ensures Split(a) == [a]
  {
    if a != "" {
      assert '/' !in a[1..] by {
        forall i | 0 <= i < |a[1..]| ensures a[1..][i] != '/' {
          assert a[1..][i] == a[i + 1];
        }
      }
      SplitPlain(a[1..]);
      assert a == [a[0]] + a[1..];
    }
  }

  lemma {:induction false} SplitAtSlash(a: string, b: string)
    requires '/' !in a
    ensures Split(a + "/" + b) == [a] + Split(b)
  {
    if a == "" {
      assert (a + "/" + b)[1..] == b;
    } else {
      assert (a + "/" + b)[1..] == a[1..] + "/" + b;
      assert '/' !in a[1..] by {
        forall i | 0 <= i < |a[1..]| ensures a[1..][i] != '/' {
          assert a[1..][i] == a[i + 1];
        }
      }
      SplitAtSlash(a[1..], b);
      assert a == [a[0]] + a[1..];
    }
  }

  /** Splitting a join of slash-free pieces gives the pieces back. */
  lemma {:induction false} SplitJoin(xs: seq<string>)
    requires |xs| >= 1
    requires forall i :: 0 <= i < |xs| ==> '/' !in xs[i]
    ensures Split(Join(xs)) == xs
  {
    if |xs| == 1 {
      SplitPlain(xs[0]);
    } else {
      SplitJoin(xs[1..]);
      SplitAtSlash(xs[0], Join(xs[1..]));
    }
  }

  /** Only no pieces or the single empty piece join to `""`. */
  lemma JoinEmpty(xs: seq<string>)
    ensures Join(xs) == "" <==> xs == [] || xs == [""]
  {
  }

  /** A name starting with `/` is exactly one whose split starts with an empty piece. */
  lemma LeadingSlash(s: string)
    ensures (|Split(s)| >= 2 && Split(s)[0] == "") <==> (|s| > 0 && s[0] == '/')
  {
  }

  /** The JavaScript `xs.slice(n)`: empty when `n` is past the end. */
  function Slice(xs: seq<string>, n: nat): seq<string>
  {
    if n <= |xs| then xs[n..] else []
  }

  /**
   * The string form of the immediate parent of `name`:
   * `fragments.slice(0, fragments.length - 1).join('/')`.
   */
  function ImmediateParent(name: string): string
  {
    var fragments := Split(name);
    Join(fragments[..|fragments| - 1])
  }

  /**
   * True of a name `"/x"` with no further slash: its immediate parent string
   * is `""` although its split is `["", "x"]`.
   */
  predicate SlashedTopLevel(name: string)
  {
    |name| > 0 && name[0] == '/' && '/' !in name[1..]
  }

  /**
   * The sequence of child keys under which `stringToFolder` and `deleteFolder`
   * look `name` up: the whole string as one key when the immediate parent
   * string is empty, otherwise the split fragments.
   */
  function KeyPath(name: string): (r: seq<string>)
    ensures |r| >= 1
  {
    if ImmediateParent(name) == "" then [name] else Split(name)
  }

  /**
   * The keys used for a name are its fragments, except for a name `"/x"`,
   * which is looked up as the single key `"/x"`, a key containing a slash.
   */
  lemma KeyPathSplit(name: string)
    ensures !SlashedTopLevel(name) ==> KeyPath(name) == Split(name)
    ensures SlashedTopLevel(name) ==> KeyPath(name) == [name] && '/' in name
  {
    var fragments := Split(name);
    var dir := fragments[..|fragments| - 1];
    JoinEmpty(dir);
    LeadingSlash(name);
    if name != "" && name[0] == '/' {
      assert name == [name[0]] + name[1..];
      assert fragments == [""] + Split(name[1..]);
      assert '/' in name[1..] <==> |Split(name[1..])| >= 2;
    }
    if dir == [] {
      JoinSplit(name);
    }
  }

  /** Different names are looked up under different key sequences. */
  lemma KeyPathInjective(a: string, b: string)
    requires KeyPath(a) == KeyPath(b)
    ensures a == b
  {
    JoinSplit(a);
    JoinSplit(b);
  }

  /** `String(n)` for a natural number: its decimal digits. */
  function Decimal(n: nat): (r: string)
    ensures |r| >= 1
    ensures forall i :: 0 <= i < |r| ==> '0' <= r[i] <= '9'
  {
    if n < 10 then ["0123456789"[n]] else Decimal(n / 10) + ["0123456789"[n % 10]]
  }
}
